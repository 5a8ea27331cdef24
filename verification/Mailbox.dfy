/** What a user's storage means: the plain list of envelopes behind the flat
    file and the two index columns, and each operation on that list. */
module Mailbox {
  import opened Bytes
  import opened Crypto
  import opened Envelope

  type Evp = e: seq<byte> | MIN_BLOCKS * BLOCK <= |e| <= EVP_MAX witness seq(MIN_BLOCKS * BLOCK, _ => 0)

  ghost predicate Distinct<T>(s: seq<T>)
  {
    forall i, j :: 0 <= i < j < |s| ==> s[i] != s[j]
  }

  // ---- A file and its block counts ------------------------------------------

  function Total(bc: seq<u16>): nat
  {
    if bc == [] then 0 else Size(bc[0]) + Total(bc[1..])
  }

  function Flatten(box: seq<Evp>): seq<byte>
  {
    if box == [] then [] else box[0] + Flatten(box[1..])
  }

  /** The envelopes of a file, cut at the boundaries the block counts give. */
  function Cut(file: seq<byte>, bc: seq<u16>): (box: seq<Evp>)
    requires |file| == Total(bc)
    ensures |box| == |bc|
  {
    if bc == [] then [] else [file[..Size(bc[0])]] + Cut(file[Size(bc[0])..], bc[1..])
  }

  lemma {:induction false} CutSizes(file: seq<byte>, bc: seq<u16>)
    requires |file| == Total(bc)
    ensures forall i :: 0 <= i < |bc| ==> |Cut(file, bc)[i]| == Size(bc[i])
  {
    if bc != [] {
      var rest := Cut(file[Size(bc[0])..], bc[1..]);
      CutSizes(file[Size(bc[0])..], bc[1..]);
      forall i | 0 < i < |bc| ensures |Cut(file, bc)[i]| == Size(bc[i]) {
        assert Cut(file, bc)[i] == rest[i - 1] && bc[1..][i - 1] == bc[i];
      }
    }
  }

  lemma {:induction false} TotalConcat(a: seq<u16>, b: seq<u16>)
    ensures Total(a + b) == Total(a) + Total(b)
  {
    if a == [] {
      assert a + b == b;
    } else {
      assert (a + b)[1..] == a[1..] + b;
      TotalConcat(a[1..], b);
    }
  }

  lemma {:induction false} TotalPrefix(bc: seq<u16>, i: nat)
    requires i < |bc|
    ensures Total(bc[..i + 1]) == Total(bc[..i]) + Size(bc[i])
    ensures Total(bc) == Total(bc[..i + 1]) + Total(bc[i + 1..])
  {
    assert bc[..i + 1] == bc[..i] + [bc[i]];
    TotalConcat(bc[..i], [bc[i]]);
    assert Total([bc[i]]) == Size(bc[i]) + Total([]);
    assert bc == bc[..i + 1] + bc[i + 1..];
    TotalConcat(bc[..i + 1], bc[i + 1..]);
  }

  lemma {:induction false} FlattenCut(file: seq<byte>, bc: seq<u16>)
    requires |file| == Total(bc)
    ensures Flatten(Cut(file, bc)) == file
  {
    hide Flatten, Size;
    if bc == [] {
      FlattenNothing();
    } else {
      var n := Size(bc[0]);
      FlattenCut(file[n..], bc[1..]);
      FlattenCons(file[..n], Cut(file[n..], bc[1..]));
      assert file == file[..n] + file[n..];
    }
  }

  lemma {:induction false} FlattenNothing()
    ensures Flatten([]) == []
  {
  }

  lemma {:induction false} FlattenCons(e: Evp, box: seq<Evp>)
    ensures Flatten([e] + box) == e + Flatten(box)
  {
    assert ([e] + box)[1..] == box;
  }

  lemma {:induction false} FlattenConcat(a: seq<Evp>, b: seq<Evp>)
    ensures Flatten(a + b) == Flatten(a) + Flatten(b)
  {
    hide Flatten;
    if a == [] {
      FlattenNothing();
      assert a + b == b;
    } else {
      var rest := a[1..];
      FlattenConcat(rest, b);
      assert a == [a[0]] + rest && a + b == [a[0]] + (rest + b);
      FlattenCons(a[0], rest);
      FlattenCons(a[0], rest + b);
    }
  }

  lemma {:induction false} FlattenAppend(box: seq<Evp>, e: Evp)
    ensures Flatten(box + [e]) == Flatten(box) + e
  {
    FlattenConcat(box, [e]);
    assert [e][1..] == [] && Flatten([e]) == e + Flatten([]);
  }

  lemma {:induction false} CutFlatten(box: seq<Evp>, bc: seq<u16>)
    requires |box| == |bc| && forall i :: 0 <= i < |bc| ==> |box[i]| == Size(bc[i])
    ensures |Flatten(box)| == Total(bc)
    ensures Cut(Flatten(box), bc) == box
  {
    if bc != [] {
      CutFlatten(box[1..], bc[1..]);
      assert Flatten(box)[..Size(bc[0])] == box[0];
      assert Flatten(box)[Size(bc[0])..] == Flatten(box[1..]);
      assert box == [box[0]] + box[1..];
    }
  }

  lemma {:induction false} CutConcat(f: seq<byte>, a: seq<u16>, g: seq<byte>, b: seq<u16>)
    requires |f| == Total(a) && |g| == Total(b)
    ensures |f + g| == Total(a + b)
    ensures Cut(f + g, a + b) == Cut(f, a) + Cut(g, b)
  {
    hide Cut, Size;
    TotalConcat(a, b);
    if a == [] {
      CutNothing();
      assert f + g == g && a + b == b;
    } else {
      var n := Size(a[0]);
      CutConcat(f[n..], a[1..], g, b);
      assert (a + b)[0] == a[0] && (a + b)[1..] == a[1..] + b;
      assert (f + g)[..n] == f[..n] && (f + g)[n..] == f[n..] + g;
      CutHead(f + g, a + b);
      CutHead(f, a);
    }
  }

  lemma CutNothing()
    ensures Total([]) == 0 && Cut([], []) == []
  {
  }

  lemma {:induction false} CutOne(e: Evp, b: u16)
    requires |e| == Size(b)
    ensures Total([b]) == Size(b) && Cut(e, [b]) == [e]
  {
    assert [b][1..] == [];
    assert e[..Size(b)] == e && e[Size(b)..] == [];
    assert Total([b]) == Size(b) + Total([]);
    assert Cut(e, [b]) == [e] + Cut([], []);
  }

  lemma {:induction false} CutSplit(file: seq<byte>, bc: seq<u16>, i: nat)
    requires |file| == Total(bc) && i <= |bc|
    ensures Total(bc[..i]) + Total(bc[i..]) == |file|
    ensures Cut(file, bc) == Cut(file[..Total(bc[..i])], bc[..i]) + Cut(file[Total(bc[..i])..], bc[i..])
  {
    assert bc == bc[..i] + bc[i..];
    TotalConcat(bc[..i], bc[i..]);
    var at := Total(bc[..i]);
    CutConcat(file[..at], bc[..i], file[at..], bc[i..]);
    assert file == file[..at] + file[at..];
  }

  /** Envelope i, with what comes before it and what comes after. */
  lemma {:induction false} CutAt(file: seq<byte>, bc: seq<u16>, i: nat, at: nat, end: nat)
    requires |file| == Total(bc) && i < |bc|
    requires at == Total(bc[..i]) && end == Total(bc[..i + 1])
    ensures end == at + Size(bc[i]) && end + Total(bc[i + 1..]) == |file|
    ensures Cut(file, bc) == Cut(file[..at], bc[..i]) + ([file[at..end]] + Cut(file[end..], bc[i + 1..]))
  {
    hide Cut, Total, Size;
    TotalPrefix(bc, i);
    CutSplit(file, bc, i);
    var tail, cols := file[at..], bc[i..];
    CutHead(tail, cols);
    assert cols[0] == bc[i] && cols[1..] == bc[i + 1..];
    assert tail[..end - at] == file[at..end];
    assert tail[end - at..] == file[end..];
  }

  lemma CutHead(file: seq<byte>, bc: seq<u16>)
    requires |file| == Total(bc) && bc != []
    ensures Cut(file, bc) == [file[..Size(bc[0])]] + Cut(file[Size(bc[0])..], bc[1..])
  {
  }

  /** Dropping envelope i from the file and its count from the column is
      dropping it from the list. */
  lemma {:induction false} CutRemove(file: seq<byte>, bc: seq<u16>, i: nat, at: nat, end: nat)
    requires |file| == Total(bc) && i < |bc|
    requires at == Total(bc[..i]) && end == Total(bc[..i + 1])
    ensures at <= end <= |file|
    ensures |file[..at] + file[end..]| == Total(RemoveAt(bc, i))
    ensures Cut(file[..at] + file[end..], RemoveAt(bc, i)) == RemoveAt(Cut(file, bc), i)
  {
    CutAt(file, bc, i, at, end);
    CutConcat(file[..at], bc[..i], file[end..], bc[i + 1..]);
    ghost var a, b := Cut(file[..at], bc[..i]), Cut(file[end..], bc[i + 1..]);
    assert RemoveAt(a + ([file[at..end]] + b), i) == a + b;
  }

  ghost function Ids(box: seq<Evp>): (r: seq<u16>)
    ensures |r| == |box|
    ensures forall i :: 0 <= i < |box| ==> r[i] == EnvelopeId(box[i])
  {
    seq(|box|, i requires 0 <= i < |box| => EnvelopeId(box[i]))
  }

  // ---- The storage invariant for one user -------------------------------------

  /** File and index agree: the file is the concatenation of its envelopes in
      index order, each under its own ID, no ID twice. */
  ghost predicate Agrees(file: seq<byte>, bc: seq<u16>, id: seq<u16>)
  {
    && |file| == Total(bc)
    && id == Ids(Cut(file, bc))
    && Distinct(id)
  }

  /** The column cells as allocated; only the first `count` of each are live. */
  datatype Cells = Cells(bc: seq<u16>, id: seq<u16>)

  ghost predicate UserOk(count: u16, cells: Cells, file: Option<seq<byte>>)
  {
    && count <= |cells.bc| && count <= |cells.id|
    && (count > 0 ==> file.Some? && Agrees(file.value, cells.bc[..count], cells.id[..count]))
  }

  /** The abstract state of one user. An orphan is a file the index does not know. */
  datatype Slot = NoFile | Orphan(content: seq<byte>) | Box(box: seq<Evp>)

  ghost function SlotOf(count: u16, cells: Cells, file: Option<seq<byte>>): Slot
    requires UserOk(count, cells, file)
  {
    if count > 0 then Box(Cut(file.value, cells.bc[..count]))
    else if file.Some? then Orphan(file.value) else NoFile
  }

  // ---- Operations on the abstract state ----------------------------------------

  /** Which of an operation's file calls succeed, the last two those on the index
      file. Each either completes or fails before it has any effect. */
  datatype Faults = Faults(open: bool, read: bool, write: bool, truncate: bool, unlink: bool,
                           saveOpen: bool, saveWrite: bool)

  datatype Keys = Keys(pwk: seq<byte>, usk: seq<byte>)

  /** Randomness and clock consumed by one sealing. */
  datatype Entropy = Entropy(draws: seq<seq<byte>>, rnd: seq<byte>, now: u64)

  datatype Config = Config(p: Primitives, ssk: seq<byte>, welcome: seq<byte>, emptied: seq<byte>)

  datatype Op =
    | Create(keys: Keys, e: Entropy, f: Faults)
    | DeleteAccount(f: Faults)
    | Write(msg: seq<byte>, maybeKeys: Option<Keys>, e: Entropy, f: Faults)
    | Delete(id: u16, f: Faults)
    | Empty(maybeKeys: Option<Keys>, e: Entropy, f: Faults)

  /** Response codes; Wrote carries the new envelope's ID, and Pending marks a
      key search that has not ended. */
  datatype Reply = Ok | Err | Exist | NotExist | Usage | Wrote(id: u16) | Pending

  predicate WellFormed(c: Config, op: Op)
  {
    (op.Create? || op.Write? || op.Empty?) ==> |op.e.rnd| >= BLOCK
  }

  /** A system message, sealed under ID 0. */
  ghost function SysSeal(c: Config, content: seq<byte>, keys: Keys, e: Entropy): Sealing
    requires c.p.Lawful() && |e.rnd| >= BLOCK
  {
    Seal(c.p, Signed(c.p, c.ssk, keys.usk, Header(1, 0, e.now) + [192] + content), keys.pwk, None, e.draws, e.rnd)
  }

  ghost predicate BoxOk(box: seq<Evp>)
  {
    && 0 < |box| < 0x1_0000
    && Distinct(Ids(box))
  }

  ghost predicate SlotOk(s: Slot)
  {
    s.Box? ==> BoxOk(s.box)
  }

  /** The envelope an arriving message becomes: signed, then sealed under an
      ID none of the stored envelopes has. */
  ghost function WriteSeal(c: Config, box: seq<Evp>, msg: seq<byte>, keys: Keys, e: Entropy): Sealing
    requires c.p.Lawful() && |e.rnd| >= BLOCK && BoxOk(box)
  {
    Seal(c.p, Signed(c.p, c.ssk, keys.usk, msg), keys.pwk, Some(Ids(box)), e.draws, e.rnd)
  }

  /** Position of the envelope with this ID, or |box|. */
  ghost function Find(box: seq<Evp>, id: u16): (i: nat)
    ensures i <= |box|
    ensures i < |box| ==> EnvelopeId(box[i]) == id
    ensures forall j :: 0 <= j < i ==> EnvelopeId(box[j]) != id
  {
    if box == [] then 0
    else if EnvelopeId(box[0]) == id then 0
    else
      1 + Find(box[1..], id)
  }

  /** An emptied or exhausted list leaves a file the index no longer knows. */
  ghost function Boxed(box: seq<Evp>): Slot
  {
    if box == [] then Orphan([]) else Box(box)
  }

  ghost function CreateStep(s: Slot, sealing: Sealing, f: Faults): (r: (Slot, Reply))
    requires sealing.Evp? ==> MIN_BLOCKS * BLOCK <= |sealing.bytes| <= EVP_MAX
  {
    if s.Box? then (s, Exist) else
    match sealing
    case Refused => (s, Err)
    case Drawing => (s, Pending)
    case Evp(evp) =>
      if s.Orphan? || !f.open then (s, Err)
      else if !f.write then (Orphan([]), Err)
      else (Box([evp]), Ok)
  }

  ghost function DeleteAccountStep(s: Slot, f: Faults): (r: (Slot, Reply))
  {
    if s.Box? && !f.unlink then (Orphan(Flatten(s.box)), Err)
    else (if s.NoFile? || f.unlink then NoFile else s, Ok)
  }

  ghost function WriteStep(s: Slot, sealing: Sealing, f: Faults): (r: (Slot, Reply))
    requires s.Box?
    requires sealing.Evp? ==> MIN_BLOCKS * BLOCK <= |sealing.bytes| <= EVP_MAX
  {
    match sealing
    case Refused => (s, Err)
    case Drawing => (s, Pending)
    case Evp(evp) =>
      if !f.open || !f.write then (s, Err)
      else if |s.box| == 0xFFFF then (Orphan(Flatten(s.box + [evp])), Wrote(EnvelopeId(evp)))
      else (Box(s.box + [evp]), Wrote(EnvelopeId(evp)))
  }

  ghost function DeleteStep(s: Slot, id: u16, f: Faults): (r: (Slot, Reply))
  {
    if !f.open || s.NoFile? then (s, Err)
    else if s.Orphan? then (s, if s.content == [] then NotExist else Err)
    else
      var i := Find(s.box, id);
      if i == |s.box| then (s, NotExist)
      else if !f.truncate || (i < |s.box| - 1 && (!f.read || !f.write)) then (s, Err)
      else (Boxed(RemoveAt(s.box, i)), Ok)
  }

  ghost function EmptyStep(s: Slot, sealing: Sealing, f: Faults): (r: (Slot, Reply))
    requires sealing.Evp? ==> MIN_BLOCKS * BLOCK <= |sealing.bytes| <= EVP_MAX
  {
    match sealing
    case Refused => (s, Err)
    case Drawing => (s, Pending)
    case Evp(evp) => if s.NoFile? || !f.open || !f.write then (s, Err) else (Box([evp]), Ok)
  }

  /** The list-level meaning of each operation. */
  ghost function Step(c: Config, s: Slot, op: Op): (r: (Slot, Reply))
    requires c.p.Lawful() && SlotOk(s) && WellFormed(c, op)
  {
    match op
    case Create(keys, e, f) => CreateStep(s, SysSeal(c, c.welcome, keys, e), f)
    case DeleteAccount(f) => DeleteAccountStep(s, f)
    case Write(msg, keys, e, f) =>
      if |msg| < MIN_BLOCKS * BLOCK || |msg| > MSG_MAX || !s.Box? || keys.None? then (s, Err)
      else WriteStep(s, WriteSeal(c, s.box, msg, keys.value, e), f)
    case Delete(id, f) => DeleteStep(s, id, f)
    case Empty(keys, e, f) =>
      if keys.None? then (s, Err) else EmptyStep(s, SysSeal(c, c.emptied, keys.value, e), f)
  }

  /** Emptying is only defined for a user with index cells, that is, with mail. */
  ghost predicate Enabled(s: Slot, op: Op)
  {
    op.Empty? ==> s.Box?
  }

  /** The two fault patterns that leave file and index disagreeing: the file was
      truncated but the notice not written, or the tail was moved down but the
      old end not cut off. */
  ghost predicate Breaks(c: Config, s: Slot, op: Op)
    requires c.p.Lawful() && SlotOk(s) && WellFormed(c, op)
  {
    || (op.Empty? && op.maybeKeys.Some? && EmptyBreaks(s, SysSeal(c, c.emptied, op.maybeKeys.value, op.e), op.f))
    || (op.Delete? && DeleteBreaks(s, op.id, op.f))
  }

  predicate EmptyBreaks(s: Slot, sealing: Sealing, f: Faults)
  {
    s.Box? && sealing.Evp? && f.open && !f.write
  }

  ghost predicate DeleteBreaks(s: Slot, id: u16, f: Faults)
  {
    s.Box? && f.open && f.read && f.write && !f.truncate && Find(s.box, id) < |s.box| - 1
  }

  // ---- What the index file must follow --------------------------------------------

  /** An operation that changes the index saves it, whether or not it then succeeds. */
  predicate Saves(s: Slot, op: Op, r: Reply)
  {
    if op.DeleteAccount? then s.Box? else r.Ok? || r.Wrote?
  }

  /** Two mailboxes the index cannot tell apart: envelopes of the same sizes, under
      the same IDs. */
  ghost predicate SameIndex(s: Slot, t: Slot)
  {
    && (s.Box? <==> t.Box?)
    && (s.Box? ==> |s.box| == |t.box| && Ids(s.box) == Ids(t.box) && forall i :: 0 <= i < |s.box| ==> |s.box[i]| == |t.box[i]|)
  }

  /** Of the operations that save, only one can leave the index as it was: emptying a
      mailbox that held a single envelope under ID 0, of the size of the notice. */
  lemma {:induction false} SameIndexOnlyWhenEmptied(c: Config, s: Slot, op: Op)
    requires c.p.Lawful() && SlotOk(s) && WellFormed(c, op) && Saves(s, op, Step(c, s, op).1)
    ensures var t := Step(c, s, op).0;
            SameIndex(s, t) <==>
              op.Empty? && s.Box? && |s.box| == 1 && EnvelopeId(s.box[0]) == 0 && t.Box? && |t.box| == 1 && |s.box[0]| == |t.box[0]|
  {
    hide EnvelopeId, SysSeal, WriteSeal, Find, Seal, Flatten;
    var t := Step(c, s, op).0;
    if op.Empty? {
      SysSealShape(c, c.emptied, op.maybeKeys.value, op.e);
      assert Ids(t.box) == [0];
      if s.Box? && |s.box| == 1 { assert Ids(s.box) == [EnvelopeId(s.box[0])]; }
    }
  }

  // ---- What each operation answers and leaves -----------------------------------

  /** What the recipient finds in an envelope: this message, its signature bits set,
      and a signature the server accepts if they were zero before. */
  ghost predicate Carries(c: Config, usk: seq<byte>, esk: seq<byte>, evp: seq<byte>, msg: seq<byte>)
    requires c.p.Lawful()
  {
    var r := Open(c.p, esk, evp);
    && r.Some? && |r.value| == |msg| > 32
    && r.value[28..] == msg[28..] && r.value[27] % 4 == msg[27] % 4
    && (msg[27] < 4 ==> SigVerify(c.p, c.ssk, UserHash(c.p, usk, CoveredOf(r.value)), SignatureOf(r.value)))
  }

  lemma {:induction false} SealedCarries(c: Config, msg: seq<byte>, usk: seq<byte>, esk: seq<byte>, used: Option<seq<u16>>, e: Entropy)
    requires c.p.Lawful() && |e.rnd| >= BLOCK
    requires Seal(c.p, Signed(c.p, c.ssk, usk, msg), c.p.scalarmultBase(esk), used, e.draws, e.rnd).Evp?
    ensures Carries(c, usk, esk, Seal(c.p, Signed(c.p, c.ssk, usk, msg), c.p.scalarmultBase(esk), used, e.draws, e.rnd).bytes, msg)
  {
    hide Open, UserHash, SigVerify, PickKey, SealWith;
    OpenInvertsSeal(c.p, Signed(c.p, c.ssk, usk, msg), esk, used, e.draws, e.rnd);
    if msg[27] < 4 { SignedVerifies(c.p, c.ssk, usk, msg); }
  }

  /** A notice of the system with this text: internal, dated, signed. */
  ghost predicate CarriesNotice(c: Config, keys: Keys, esk: seq<byte>, evp: seq<byte>, content: seq<byte>, now: u64)
    requires c.p.Lawful()
  {
    var r := Open(c.p, esk, evp);
    && r.Some? && |r.value| == 33 + |content| && r.value[27] % 4 == 1 && r.value[32] == 192 && r.value[33..] == content
    && FromLe(r.value[28..32]) == (if 1735689600 <= now < 6030656896 then now - 1735689600 else 1)
    && SigVerify(c.p, c.ssk, UserHash(c.p, keys.usk, CoveredOf(r.value)), SignatureOf(r.value))
  }

  lemma {:induction false} NoticeCarried(c: Config, content: seq<byte>, keys: Keys, esk: seq<byte>, e: Entropy)
    requires c.p.Lawful() && |e.rnd| >= BLOCK && keys.pwk == c.p.scalarmultBase(esk)
    requires SysSeal(c, content, keys, e).Evp?
    ensures CarriesNotice(c, keys, esk, SysSeal(c, content, keys, e).bytes, content, e.now)
  {
    hide Seal, Open, UserHash, SigVerify, Signed, FromLe;
    var msg := Header(1, 0, e.now) + [192] + content;
    HeaderFields(1, 0, e.now);
    SealedCarries(c, msg, keys.usk, esk, None, e);
    var m := Open(c.p, esk, SysSeal(c, content, keys, e).bytes).value;
    assert msg[28..32] == Header(1, 0, e.now)[28..32];
    assert m[28..][..4] == m[28..32] && m[28..][4] == m[32] && m[28..][5..] == m[33..];
    assert msg[28..][..4] == msg[28..32] && msg[28..][4] == msg[32] && msg[28..][5..] == msg[33..] == content;
  }

  /** Envelope i, and it alone, had this ID and is left out. */
  ghost predicate LeftOut(box: seq<Evp>, i: nat, id: u16, t: Slot)
  {
    && i < |box| && EnvelopeId(box[i]) == id
    && id !in Ids(box[..i] + box[i + 1..])
    && t == if |box| == 1 then Orphan([]) else Box(box[..i] + box[i + 1..])
  }

  /** A deletion: NotExist exactly when the ID is absent, Ok exactly when it is there and
      the file calls it needs work; then that envelope is gone, and otherwise nothing is. */
  ghost predicate Deleted(s: Slot, id: u16, f: Faults, t: Slot, r: Reply)
  {
    match s
    case NoFile => t == s && r == Err
    case Orphan(content) => t == s && r == if f.open && content == [] then NotExist else Err
    case Box(box) =>
      && (r == Ok || r == NotExist || r == Err)
      && (r == NotExist <==> f.open && id !in Ids(box))
      && (r == Ok <==> f.open && id in Ids(box) && f.truncate && ((f.read && f.write) || id == EnvelopeId(box[|box| - 1])))
      && (r != Ok ==> t == s)
      && (r == Ok ==> exists i: nat :: LeftOut(box, i, id, t))
  }

  lemma {:induction false} LeftOutAt(box: seq<Evp>, id: u16)
    requires BoxOk(box)
    ensures var i := Find(box, id);
      && (i == |box| <==> id !in Ids(box))
      && (i < |box| ==> LeftOut(box, i, id, Boxed(RemoveAt(box, i))) && (i == |box| - 1 <==> id == EnvelopeId(box[|box| - 1])))
  {
    hide EnvelopeId, Find;
    var i := Find(box, id);
    if i < |box| {
      assert Ids(box)[i] == id;
      var rest := RemoveAt(box, i);
      forall j | 0 <= j < |rest| ensures Ids(rest)[j] != id {
        assert Ids(rest)[j] == Ids(box)[if j < i then j else j + 1];
      }
      if i < |box| - 1 { assert Ids(box)[i] != Ids(box)[|box| - 1]; }
    } else {
      assert forall j :: 0 <= j < |box| ==> Ids(box)[j] == EnvelopeId(box[j]) != id;
    }
  }

  lemma {:induction false} DeleteSpec(s: Slot, id: u16, f: Faults)
    requires SlotOk(s)
    ensures var r := DeleteStep(s, id, f); Deleted(s, id, f, r.0, r.1)
  {
    hide EnvelopeId, LeftOut, BoxOk, Ids, Boxed, Bytes.RemoveAt;
    if s.Box? { LeftOutAt(s.box, id); }
  }

  /** One of the drawn keys will do, and key agreement works with the first that does. */
  ghost predicate Sealable(c: Config, used: Option<seq<u16>>, keys: Keys, e: Entropy)
    requires c.p.Lawful()
  {
    exists k: nat :: FirstUsable(c.p, used, e.draws, k) && c.p.scalarmult(e.draws[k], keys.pwk).Some?
  }

  ghost predicate NoneUsable(c: Config, used: Option<seq<u16>>, e: Entropy)
    requires c.p.Lawful()
  {
    forall k :: 0 <= k < |e.draws| ==> !Usable(c.p, used, e.draws[k])
  }

  /** An arriving message: stored exactly when the user has mail, its length is in
      range, the keys came, a key was found that works, and the file took it. Then
      exactly one envelope more is there, at the end, under a new ID, and it carries
      the message to whoever holds the secret key. */
  ghost predicate Written(c: Config, s: Slot, msg: seq<byte>, maybeKeys: Option<Keys>, e: Entropy, f: Faults, t: Slot, r: Reply)
    requires c.p.Lawful()
  {
    var wanted := s.Box? && 96 <= |msg| <= 2097183 && maybeKeys.Some?;
    && (r.Wrote? <==> wanted && Sealable(c, Some(Ids(s.box)), maybeKeys.value, e) && f.open && f.write)
    && (r.Pending? <==> wanted && NoneUsable(c, Some(Ids(s.box)), e))
    && (r.Wrote? || r.Pending? || r.Err?) && (!r.Wrote? ==> t == s)
    && (r.Wrote? ==> exists evp :: Appended(c, s.box, msg, maybeKeys.value, evp, r.id, t))
  }

  ghost predicate Appended(c: Config, box: seq<Evp>, msg: seq<byte>, keys: Keys, evp: Evp, id: u16, t: Slot)
    requires c.p.Lawful()
  {
    && EnvelopeId(evp) == id && id !in Ids(box)
    && t == (if |box| < 0xFFFF then Box(box + [evp]) else Orphan(Flatten(box + [evp])))
    && forall esk :: c.p.scalarmultBase(esk) == keys.pwk ==> Carries(c, keys.usk, esk, evp, msg)
  }

  lemma {:induction false} WriteSpec(c: Config, s: Slot, msg: seq<byte>, keys: Option<Keys>, e: Entropy, f: Faults)
    requires c.p.Lawful() && SlotOk(s) && |e.rnd| >= BLOCK
    ensures var r := Step(c, s, Write(msg, keys, e, f)); Written(c, s, msg, keys, e, f, r.0, r.1)
  {
    hide Seal, Carries, Usable, EnvelopeId, FirstUsable, Flatten, Distinct;
    if s.Box? && 96 <= |msg| <= 2097183 && keys.Some? {
      var k, m := keys.value, Signed(c.p, c.ssk, keys.value.usk, msg);
      SealOutcome(c.p, m, k.pwk, Some(Ids(s.box)), e.draws, e.rnd);
      var sealing := WriteSeal(c, s.box, msg, k, e);
      if sealing.Evp? {
        WriteSealShape(c, s.box, msg, k, e);
        var evp: Evp, r := sealing.bytes, Step(c, s, Write(msg, keys, e, f));
        if r.1.Wrote? { assert Appended(c, s.box, msg, k, evp, r.1.id, r.0); }
      }
    }
  }

  /** The single envelope of a mailbox that holds nothing but this notice. */
  ghost predicate OnlyNotice(c: Config, keys: Keys, content: seq<byte>, now: u64, t: Slot)
    requires c.p.Lawful()
  {
    && t.Box? && |t.box| == 1 && EnvelopeId(t.box[0]) == 0
    && forall esk :: c.p.scalarmultBase(esk) == keys.pwk ==> CarriesNotice(c, keys, esk, t.box[0], content, now)
  }

  lemma {:induction false} SysSealOutcome(c: Config, content: seq<byte>, keys: Keys, e: Entropy)
    requires c.p.Lawful() && |e.rnd| >= BLOCK
    ensures var r := SysSeal(c, content, keys, e); var fits := |content| <= 2097150;
      && (r.Evp? <==> fits && Sealable(c, None, keys, e))
      && (r.Drawing? <==> fits && NoneUsable(c, None, e))
      && (r.Evp? ==> MIN_BLOCKS * BLOCK <= |r.bytes| <= EVP_MAX && OnlyNotice(c, keys, content, e.now, Box([r.bytes])))
  {
    hide Seal, Usable, FirstUsable, CarriesNotice, EnvelopeId, Signed;
    var msg := Header(1, 0, e.now) + [192] + content;
    SealOutcome(c.p, Signed(c.p, c.ssk, keys.usk, msg), keys.pwk, None, e.draws, e.rnd);
    var r := SysSeal(c, content, keys, e);
    if r.Evp? { SysSealShape(c, content, keys, e); }
  }

  /** A new mailbox: made exactly when the user has neither mail nor file, and the
      welcome can be sealed and written. */
  ghost predicate Created(c: Config, s: Slot, keys: Keys, e: Entropy, f: Faults, t: Slot, r: Reply)
    requires c.p.Lawful()
  {
    var fits := |c.welcome| <= 2097150;
    var ready := s.NoFile? && fits && Sealable(c, None, keys, e) && f.open;
    && (r.Exist? <==> s.Box?)
    && (r.Ok? <==> ready && f.write)
    && (r.Pending? <==> !s.Box? && fits && NoneUsable(c, None, e))
    && (r.Exist? || r.Ok? || r.Pending? || r.Err?)
    && (r.Ok? ==> OnlyNotice(c, keys, c.welcome, e.now, t))
    && (!r.Ok? ==> t == if ready then Orphan([]) else s)
  }

  lemma {:induction false} CreateSpec(c: Config, s: Slot, keys: Keys, e: Entropy, f: Faults)
    requires c.p.Lawful() && SlotOk(s) && |e.rnd| >= BLOCK
    ensures var r := Step(c, s, Create(keys, e, f)); Created(c, s, keys, e, f, r.0, r.1)
  {
    hide SysSeal, Sealable, NoneUsable, OnlyNotice;
    SysSealOutcome(c, c.welcome, keys, e);
    SomeOrNone(c, None, keys, e);
  }

  lemma {:induction false} SomeOrNone(c: Config, used: Option<seq<u16>>, keys: Keys, e: Entropy)
    requires c.p.Lawful()
    ensures !(Sealable(c, used, keys, e) && NoneUsable(c, used, e))
  {
    hide Usable;
  }

  /** Emptying a mailbox: done exactly when the keys came and the notice can be sealed
      and written; then the notice is all there is. */
  ghost predicate Emptied(c: Config, s: Slot, maybeKeys: Option<Keys>, e: Entropy, f: Faults, t: Slot, r: Reply)
    requires c.p.Lawful()
  {
    var wanted := maybeKeys.Some? && |c.emptied| <= 2097150;
    && (r.Ok? <==> wanted && !s.NoFile? && Sealable(c, None, maybeKeys.value, e) && f.open && f.write)
    && (r.Pending? <==> wanted && NoneUsable(c, None, e))
    && (r.Ok? || r.Pending? || r.Err?)
    && (r.Ok? ==> OnlyNotice(c, maybeKeys.value, c.emptied, e.now, t))
    && (!r.Ok? ==> t == s)
  }

  lemma {:induction false} EmptySpec(c: Config, s: Slot, keys: Option<Keys>, e: Entropy, f: Faults)
    requires c.p.Lawful() && SlotOk(s) && |e.rnd| >= BLOCK
    ensures var r := Step(c, s, Empty(keys, e, f)); Emptied(c, s, keys, e, f, r.0, r.1)
  {
    hide SysSeal, Sealable, NoneUsable, OnlyNotice;
    if keys.Some? {
      SysSealOutcome(c, c.emptied, keys.value, e);
      SomeOrNone(c, None, keys.value, e);
    }
  }

  /** Deleting an account: nothing is left if the unlink works; if it does not, the file
      stays, known to the index no more. The failure is only reported to users with mail. */
  ghost predicate AccountGone(s: Slot, f: Faults, t: Slot, r: Reply)
  {
    && (r == Ok || r == Err) && (r == Err <==> s.Box? && !f.unlink)
    && t == if f.unlink || s.NoFile? then NoFile else Orphan(if s.Box? then Flatten(s.box) else s.content)
  }

  /** What a call may answer and leave. */
  ghost predicate Answers(c: Config, s: Slot, op: Op, t: Slot, r: Reply)
    requires c.p.Lawful()
  {
    match op
    case Create(keys, e, f) => Created(c, s, keys, e, f, t, r)
    case DeleteAccount(f) => AccountGone(s, f, t, r)
    case Write(msg, keys, e, f) => Written(c, s, msg, keys, e, f, t, r)
    case Delete(id, f) => Deleted(s, id, f, t, r)
    case Empty(keys, e, f) => Emptied(c, s, keys, e, f, t, r)
  }

  lemma {:induction false} StepAnswers(c: Config, s: Slot, op: Op)
    requires c.p.Lawful() && SlotOk(s) && WellFormed(c, op)
    ensures var r := Step(c, s, op); Answers(c, s, op, r.0, r.1)
  {
    hide Created, Written, Deleted, Emptied, SlotOk, SysSeal, WriteSeal;
    match op
    case Create(keys, e, f) => CreateSpec(c, s, keys, e, f);
    case DeleteAccount(f) =>
    case Write(msg, keys, e, f) => WriteSpec(c, s, msg, keys, e, f);
    case Delete(id, f) => DeleteSpec(s, id, f);
    case Empty(keys, e, f) => EmptySpec(c, s, keys, e, f);
  }

  /** The only two ways to part file and index: a mailbox truncated to be emptied whose
      notice is then not written, and an envelope other than the last whose successors
      were moved over it while the old end was not cut off. */
  lemma {:induction false} BreaksOnlyThen(c: Config, s: Slot, op: Op)
    requires c.p.Lawful() && SlotOk(s) && WellFormed(c, op)
    ensures Breaks(c, s, op) <==> s.Box? && op.f.open && match op
      case Empty(keys, e, f) => !f.write && keys.Some? && |c.emptied| <= 2097150 && Sealable(c, None, keys.value, e)
      case Delete(id, f) => f.read && f.write && !f.truncate && id in Ids(s.box) && id != EnvelopeId(s.box[|s.box| - 1])
      case _ => false
  {
    hide SysSeal, Sealable, NoneUsable, OnlyNotice, EnvelopeId, Ids, Find, LeftOut;
    match op
    case Empty(keys, e, f) => if keys.Some? { SysSealOutcome(c, c.emptied, keys.value, e); }
    case Delete(id, f) => if s.Box? { LeftOutAt(s.box, id); }
    case _ =>
  }

  // ---- What every step keeps ---------------------------------------------------

  lemma {:induction false} FindIs(box: seq<Evp>, i: nat)
    requires BoxOk(box) && i < |box|
    ensures Find(box, EnvelopeId(box[i])) == i
  {
    var k := Find(box, EnvelopeId(box[i]));
    assert k <= i && Ids(box)[k] == Ids(box)[i];
  }

  lemma {:induction false} AppendKeepsBoxOk(box: seq<Evp>, evp: Evp)
    requires BoxOk(box) && |box| < 0xFFFF && EnvelopeId(evp) !in Ids(box)
    ensures BoxOk(box + [evp])
  {
    assert Ids(box + [evp]) == Ids(box) + [EnvelopeId(evp)];
  }

  lemma {:induction false} RemoveKeepsBoxOk(box: seq<Evp>, i: nat)
    requires BoxOk(box) && i < |box|
    ensures SlotOk(Boxed(RemoveAt(box, i)))
  {
    assert Ids(RemoveAt(box, i)) == RemoveAt(Ids(box), i);
  }

  lemma {:induction false} SysSealShape(c: Config, content: seq<byte>, keys: Keys, e: Entropy)
    requires c.p.Lawful() && |e.rnd| >= BLOCK
    ensures var r := SysSeal(c, content, keys, e);
            r.Evp? ==> |r.bytes| == Size(BlockCount(|r.bytes|)) && EnvelopeId(r.bytes) == 0 && BoxOk([r.bytes])
    ensures var r := SysSeal(c, content, keys, e);
            r.Evp? ==> forall esk :: c.p.scalarmultBase(esk) == keys.pwk ==> CarriesNotice(c, keys, esk, r.bytes, content, e.now)
  {
    hide CarriesNotice, Signed;
    var r := SysSeal(c, content, keys, e);
    forall esk | r.Evp? && c.p.scalarmultBase(esk) == keys.pwk ensures CarriesNotice(c, keys, esk, r.bytes, content, e.now) {
      NoticeCarried(c, content, keys, esk, e);
    }
    SealShape(c.p, Signed(c.p, c.ssk, keys.usk, Header(1, 0, e.now) + [192] + content), keys.pwk, None, e.draws, e.rnd);
  }

  lemma {:induction false} WriteSealShape(c: Config, box: seq<Evp>, msg: seq<byte>, keys: Keys, e: Entropy)
    requires c.p.Lawful() && |e.rnd| >= BLOCK && BoxOk(box)
    ensures var r := WriteSeal(c, box, msg, keys, e);
            r.Evp? ==> |r.bytes| == Size(BlockCount(|r.bytes|)) && EnvelopeId(r.bytes) !in Ids(box)
    ensures var r := WriteSeal(c, box, msg, keys, e);
            r.Evp? ==> forall esk :: c.p.scalarmultBase(esk) == keys.pwk ==> Carries(c, keys.usk, esk, r.bytes, msg)
  {
    hide Carries, Signed;
    var r := WriteSeal(c, box, msg, keys, e);
    forall esk | r.Evp? && c.p.scalarmultBase(esk) == keys.pwk ensures Carries(c, keys.usk, esk, r.bytes, msg) {
      SealedCarries(c, msg, keys.usk, esk, Some(Ids(box)), e);
    }
    SealShape(c.p, Signed(c.p, c.ssk, keys.usk, msg), keys.pwk, Some(Ids(box)), e.draws, e.rnd);
  }

  lemma {:induction false} WriteKeepsSlotOk(c: Config, s: Slot, op: Op)
    requires c.p.Lawful() && SlotOk(s) && WellFormed(c, op) && op.Write?
    ensures SlotOk(Step(c, s, op).0)
  {
    if s.Box? && op.maybeKeys.Some? {
      WriteSealShape(c, s.box, op.msg, op.maybeKeys.value, op.e);
      var r := WriteSeal(c, s.box, op.msg, op.maybeKeys.value, op.e);
      if r.Evp? && |s.box| < 0xFFFF { AppendKeepsBoxOk(s.box, r.bytes); }
    }
  }

  lemma {:induction false} DeleteKeepsSlotOk(c: Config, s: Slot, op: Op)
    requires c.p.Lawful() && SlotOk(s) && WellFormed(c, op) && op.Delete?
    ensures SlotOk(Step(c, s, op).0)
  {
    if s.Box? && Find(s.box, op.id) < |s.box| { RemoveKeepsBoxOk(s.box, Find(s.box, op.id)); }
  }

  /** Lists stay lists of distinctly named envelopes, whatever the operation. */
  lemma {:induction false} StepKeepsSlotOk(c: Config, s: Slot, op: Op)
    requires c.p.Lawful() && SlotOk(s) && WellFormed(c, op)
    ensures SlotOk(Step(c, s, op).0)
  {
    if op.Create? {
      SysSealShape(c, c.welcome, op.keys, op.e);
    } else if op.Empty? {
      if op.maybeKeys.Some? { SysSealShape(c, c.emptied, op.maybeKeys.value, op.e); }
    } else if op.Write? {
      WriteKeepsSlotOk(c, s, op);
    } else if op.Delete? {
      DeleteKeepsSlotOk(c, s, op);
    }
  }

  // ---- From file and index to the list -------------------------------------------

  lemma IdsAppend(box: seq<Evp>, evp: Evp)
    ensures Ids(box + [evp]) == Ids(box) + [EnvelopeId(evp)]
  {
  }

  /** What agreement gives for one user, in terms of the list. */
  lemma {:induction false} OkFacts(count: u16, cells: Cells, file: Option<seq<byte>>)
    requires UserOk(count, cells, file)
    ensures count <= |cells.bc| && count <= |cells.id|
    ensures var s := SlotOf(count, cells, file);
      && SlotOk(s)
      && (count == 0 ==> s == if file.Some? then Orphan(file.value) else NoFile)
      && (count > 0 ==>
          && s.Box? && |s.box| == count && Ids(s.box) == cells.id[..count]
          && file.Some? && |file.value| == Total(cells.bc[..count]) && Flatten(s.box) == file.value)
  {
    if count > 0 { FlattenCut(file.value, cells.bc[..count]); }
  }

  lemma NoMailbox(cells: Cells, file: Option<seq<byte>>)
    ensures UserOk(0, cells, file)
    ensures SlotOf(0, cells, file) == if file.Some? then Orphan(file.value) else NoFile
  {
  }

  /** Cells past the count do not matter. */
  lemma SameLive(count: u16, cells: Cells, after: Cells, file: Option<seq<byte>>)
    requires UserOk(count, cells, file)
    requires count <= |after.bc| && count <= |after.id|
    requires after.bc[..count] == cells.bc[..count] && after.id[..count] == cells.id[..count]
    ensures UserOk(count, after, file) && SlotOf(count, after, file) == SlotOf(count, cells, file)
  {
  }

  /** A truncated file never matches a nonempty index. */
  lemma {:induction false} TruncatedDisagrees(count: u16, cells: Cells)
    requires 0 < count <= |cells.bc|
    ensures !UserOk(count, cells, Some([]))
  {
    TotalPrefix(cells.bc[..count], 0);
  }

  /** A new mailbox holding one envelope. */
  lemma {:induction false} FreshUser(cells: Cells, evp: Evp)
    requires |cells.bc| >= 1 && |cells.id| >= 1
    requires cells.bc[0] == BlockCount(|evp|) && cells.id[0] == 0
    requires |evp| == Size(BlockCount(|evp|)) && EnvelopeId(evp) == 0
    ensures UserOk(1, cells, Some(evp)) && SlotOf(1, cells, Some(evp)) == Box([evp])
  {
    assert cells.bc[..1] == [cells.bc[0]] && cells.id[..1] == [0];
    CutOne(evp, cells.bc[0]);
  }

  /** Appending an envelope to the file and its entries to the columns. */
  lemma {:induction false} AppendUser(count: u16, cells: Cells, after: Cells, file: seq<byte>, evp: Evp)
    requires 0 < count < 0xFFFF && UserOk(count, cells, Some(file))
    requires |after.bc| > count && |after.id| > count
    requires after.bc[..count] == cells.bc[..count] && after.id[..count] == cells.id[..count]
    requires after.bc[count] == BlockCount(|evp|) && after.id[count] == EnvelopeId(evp)
    requires |evp| == Size(BlockCount(|evp|)) && EnvelopeId(evp) !in cells.id[..count]
    ensures UserOk(count + 1, after, Some(file + evp))
    ensures SlotOf(count + 1, after, Some(file + evp)) == Box(SlotOf(count, cells, Some(file)).box + [evp])
  {
    var bc, id := cells.bc[..count], cells.id[..count];
    assert after.bc[..count + 1] == bc + [after.bc[count]] && after.id[..count + 1] == id + [after.id[count]];
    CutOne(evp, after.bc[count]);
    CutConcat(file, bc, evp, [after.bc[count]]);
    IdsAppend(Cut(file, bc), evp);
  }

  lemma {:induction false} RemoveAgrees(file: seq<byte>, bc: seq<u16>, id: seq<u16>, i: nat, at: nat, end: nat)
    requires Agrees(file, bc, id) && i < |bc|
    requires at == Total(bc[..i]) && end == Total(bc[..i + 1])
    ensures at <= end <= |file|
    ensures Agrees(file[..at] + file[end..], RemoveAt(bc, i), RemoveAt(id, i))
    ensures Cut(file[..at] + file[end..], RemoveAt(bc, i)) == RemoveAt(Cut(file, bc), i)
  {
    CutRemove(file, bc, i, at, end);
    var box := Cut(file, bc);
    assert Ids(RemoveAt(box, i)) == RemoveAt(Ids(box), i);
  }

  /** Moving the tail of the file down and both columns along with it. */
  lemma {:induction false} RemoveUser(count: u16, cells: Cells, after: Cells, file: seq<byte>, i: nat, at: nat, end: nat)
    requires 0 < count && UserOk(count, cells, Some(file)) && i < count
    requires at == Total(cells.bc[..i]) && end == at + Size(cells.bc[i])
    requires |after.bc| >= count - 1 && |after.id| >= count - 1
    requires after.bc[..count - 1] == RemoveAt(cells.bc[..count], i)
    requires after.id[..count - 1] == RemoveAt(cells.id[..count], i)
    ensures at <= end <= |file|
    ensures UserOk(count - 1, after, Some(file[..at] + file[end..]))
    ensures SlotOf(count - 1, after, Some(file[..at] + file[end..])) == Boxed(RemoveAt(SlotOf(count, cells, Some(file)).box, i))
  {
    var bc, id := cells.bc[..count], cells.id[..count];
    assert bc[..i] == cells.bc[..i];
    TotalPrefix(bc, i);
    RemoveAgrees(file, bc, id, i, at, end);
    if count == 1 { assert file[..at] + file[end..] == []; }
  }

  lemma {:induction false} EnvelopeAt(file: seq<byte>, bc: seq<u16>, i: nat, at: nat, end: nat)
    requires |file| == Total(bc) && i < |bc|
    requires at == Total(bc[..i]) && end == Total(bc[..i + 1])
    ensures at <= end <= |file| && Cut(file, bc)[i] == file[at..end]
  {
    CutAt(file, bc, i, at, end);
  }

  /** If the tail was moved down but the file not shortened, position i now
      starts with the next envelope, whose ID is not the one the index holds. */
  lemma {:induction false} ShiftedDisagrees(file: seq<byte>, bc: seq<u16>, id: seq<u16>, i: nat, at: nat, end: nat)
    requires Agrees(file, bc, id) && i + 1 < |bc|
    requires at == Total(bc[..i]) && end == Total(bc[..i + 1])
    ensures at <= end <= |file|
    ensures !Agrees(file[..at] + file[end..] + file[|file| - (end - at)..], bc, id)
  {
    hide Cut, Total, Ids, EnvelopeId, Size;
    TotalPrefix(bc, i);
    TotalPrefix(bc, i + 1);
    var next := Total(bc[..i + 2]);
    EnvelopeAt(file, bc, i + 1, end, next);
    var broken := file[..at] + file[end..] + file[|file| - (end - at)..];
    assert |broken| == |file|;
    EnvelopeAt(broken, bc, i, at, end);
    var w, e := broken[at..end], file[end..next];
    assert |w| == end - at >= 96 && |e| >= 96;
    forall k | 0 <= k < 32 ensures w[k] == e[k] {
      assert w[k] == broken[at + k] == file[end + k] == e[k];
    }
    assert w[..32] == e[..32];
    EnvelopeIdPrefix(w, e);
    assert Ids(Cut(broken, bc))[i] == EnvelopeId(w) == id[i + 1];
  }
}
