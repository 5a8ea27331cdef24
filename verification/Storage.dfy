/** AEM-Storage: one flat file per user and an in-memory index of block counts
    and envelope IDs (storage/IO.c). */
module Storage {
  import opened Bytes
  import opened Crypto
  import opened Envelope
  import opened Mailbox
  import Browse
  import Charset
  import Runs
  import Stindex

  const USERS := Stindex.USERS

  type Files = map<string, seq<byte>>

  function FileOf(eid: string, files: Files, u: nat): Option<seq<byte>>
    requires |eid| == 64
  {
    if Charset.Path(eid, u) in files then Some(files[Charset.Path(eid, u)]) else None
  }

  /** The live part of the index; what saveStindex writes. */
  function Live(counts: seq<u16>, stindex: seq<Cells>): (idx: seq<Stindex.Index>)
    requires |counts| == |stindex|
    ensures |idx| == |counts| && Stindex.AllOk(idx)
    ensures forall u :: 0 <= u < |counts| ==> idx[u] == LiveOne(counts[u], stindex[u])
  {
    seq(|counts|, u requires 0 <= u < |counts| => LiveOne(counts[u], stindex[u]))
  }

  function LiveOne(count: u16, cells: Cells): (x: Stindex.Index)
    ensures Stindex.IndexOk(x)
  {
    if count <= |cells.bc| && count <= |cells.id| then Stindex.Index(cells.bc[..count], cells.id[..count])
    else Stindex.Index([], [])
  }

  /** Index and files agree for every user. */
  ghost predicate AllAgree(eid: string, counts: seq<u16>, stindex: seq<Cells>, files: Files)
    requires |eid| == 64
  {
    && |counts| == |stindex| == USERS
    && forall u :: 0 <= u < USERS ==> UserOk(counts[u], stindex[u], FileOf(eid, files, u))
  }

  /** Only user u's index entries and file differ. */
  ghost predicate OnlyUser(eid: string, u: nat, counts: seq<u16>, stindex: seq<Cells>, files: Files,
                           counts': seq<u16>, stindex': seq<Cells>, files': Files)
    requires |eid| == 64
  {
    && |counts| == |stindex| == |counts'| == |stindex'| == USERS
    && (forall v :: 0 <= v < USERS && v != u ==> counts'[v] == counts[v] && stindex'[v] == stindex[v])
    && files' - {Charset.Path(eid, u)} == files - {Charset.Path(eid, u)}
  }

  /** Because file names are distinct, such a change leaves every other user's
      mailbox alone, and the whole storage agrees exactly when user u does. */
  lemma {:induction false} OnlyUserMatters(eid: string, u: nat, counts: seq<u16>, stindex: seq<Cells>, files: Files,
                        counts': seq<u16>, stindex': seq<Cells>, files': Files)
    requires |eid| == 64 && Charset.NoRepeat(eid) && u < USERS
    requires AllAgree(eid, counts, stindex, files)
    requires OnlyUser(eid, u, counts, stindex, files, counts', stindex', files')
    ensures forall v :: 0 <= v < USERS && v != u ==> FileOf(eid, files', v) == FileOf(eid, files, v)
    ensures AllAgree(eid, counts', stindex', files') <==> UserOk(counts'[u], stindex'[u], FileOf(eid, files', u))
  {
    hide Mailbox.UserOk;
    forall v | 0 <= v < USERS && v != u ensures FileOf(eid, files', v) == FileOf(eid, files, v) {
      if Charset.Path(eid, v) == Charset.Path(eid, u) {
        Charset.PathInjective(eid, u, v);
        assert false;
      }
      assert Charset.Path(eid, v) in files' <==> Charset.Path(eid, v) in files' - {Charset.Path(eid, u)};
      assert Charset.Path(eid, v) in files <==> Charset.Path(eid, v) in files - {Charset.Path(eid, u)};
      if Charset.Path(eid, v) in files {
        assert (files' - {Charset.Path(eid, u)})[Charset.Path(eid, v)] == (files - {Charset.Path(eid, u)})[Charset.Path(eid, v)];
      }
    }
  }

  /** reallocarray: the first n cells, whatever was there kept. */
  function Realloc(s: seq<u16>, n: nat): (r: seq<u16>)
    ensures |r| == n
    ensures forall k :: 0 <= k < n && k < |s| ==> r[k] == s[k]
  {
    if |s| >= n then s[..n] else s + seq(n - |s|, _ => 0)
  }

  /** Both columns wiped, then the single entry of the notice. */
  method ResetColumns(cells: Cells, n: nat, bc: u16) returns (after: Cells)
    requires 0 < n <= |cells.bc| && n <= |cells.id|
    ensures |after.bc| == |cells.bc| && |after.id| == |cells.id|
    ensures after.bc[0] == bc && after.id[0] == 0
  {
    var zeros := seq(n, _ => 0);
    after := Cells((zeros + cells.bc[n..])[0 := bc], (zeros + cells.id[n..])[0 := 0]);
  }

  /** Scan the live columns for an ID, adding up file positions on the way. */
  method FindEnvelope(bc: seq<u16>, id: seq<u16>, delId: u16) returns (i: nat, filePos: nat)
    requires |bc| == |id|
    ensures i <= |id| && delId !in id[..i] && (i < |id| ==> id[i] == delId)
    ensures filePos == Total(bc[..i])
  {
    i, filePos := 0, 0;
    while i < |id|
      invariant 0 <= i <= |id|
      invariant filePos == Total(bc[..i])
      invariant delId !in id[..i]
    {
      if id[i] == delId { break; }
      TotalPrefix(bc, i);
      assert id[..i + 1] == id[..i] + [id[i]];
      filePos := filePos + (bc[i] + MIN_BLOCKS) * BLOCK;
      i := i + 1;
    }
  }

  lemma {:induction false} DroppedUser(count: u16, cells: Cells, file: seq<byte>, at: nat)
    requires 0 < count && UserOk(count, cells, Some(file)) && at == Total(cells.bc[..count - 1])
    ensures var n := Size(cells.bc[count - 1]); var s := SlotOf(count, cells, Some(file));
            && n <= |file|
            && UserOk(count - 1, cells, Some(file[..|file| - n]))
            && SlotOf(count - 1, cells, Some(file[..|file| - n])) == Boxed(RemoveAt(s.box, |s.box| - 1))
  {
    hide Mailbox.Cut, Mailbox.Ids, Mailbox.Total;
    var n := Size(cells.bc[count - 1]);
    var bc := cells.bc[..count];
    assert bc[..count - 1] == cells.bc[..count - 1] && bc[..count] == bc;
    TotalPrefix(bc, count - 1);
    assert file[..at] + file[at + n..] == file[..|file| - n];
    RemoveUser(count, cells, cells, file, count - 1, at, at + n);
  }

  /** Tail moved but file not shortened: file and index disagree. */
  lemma {:induction false} MovedOnly(count: u16, cells: Cells, file: seq<byte>, i: nat, at: nat, end: nat)
    requires UserOk(count, cells, Some(file)) && i + 1 < count
    requires at == Total(cells.bc[..i]) && end == at + Size(cells.bc[i])
    ensures at <= end <= |file|
    ensures !UserOk(count, cells, Some(file[..at] + file[end..] + file[|file| - (end - at)..]))
  {
    var bc := cells.bc[..count];
    assert bc[..i] == cells.bc[..i];
    TotalPrefix(bc, i);
    ShiftedDisagrees(file, bc, cells.id[..count], i, at, end);
  }

  /** The two memmoves of storage_delete. With the tail moved down and the file
      shortened, they make file and index agree on a list without envelope i. */
  method CloseGap(count: u16, cells: Cells, i: nat, ghost file: seq<byte>, ghost at: nat, ghost end: nat)
    returns (after: Cells)
    requires UserOk(count, cells, Some(file)) && i + 1 < count
    requires at == Total(cells.bc[..i]) && end == at + Size(cells.bc[i])
    ensures at <= end <= |file|
    ensures UserOk(count - 1, after, Some(file[..at] + file[end..]))
    ensures SlotOf(count - 1, after, Some(file[..at] + file[end..])) == Boxed(RemoveAt(SlotOf(count, cells, Some(file)).box, i))
  {
    after := Cells(Memmove(cells.bc, i, i + 1, count - i - 1), Memmove(cells.id, i, i + 1, count - i - 1));
    assert after.bc[..count - 1] == RemoveAt(cells.bc[..count], i) && after.id[..count - 1] == RemoveAt(cells.id[..count], i);
    RemoveUser(count, cells, after, file, i, at, end);
  }

  /** The mailboxes of all users. */
  ghost function SlotsOf(eid: string, counts: seq<u16>, stindex: seq<Cells>, files: Files): (r: seq<Slot>)
    requires |eid| == 64 && AllAgree(eid, counts, stindex, files)
    ensures |r| == USERS
    ensures forall u :: 0 <= u < USERS ==> r[u] == SlotOf(counts[u], stindex[u], FileOf(eid, files, u)) && SlotOk(r[u])
  {
    var r := seq(USERS, u requires 0 <= u < USERS => SlotOf(counts[u], stindex[u], FileOf(eid, files, u)));
    assert forall u :: 0 <= u < USERS ==> SlotOk(r[u]) by {
      forall u | 0 <= u < USERS ensures SlotOk(r[u]) { OkFacts(counts[u], stindex[u], FileOf(eid, files, u)); }
    }
    r
  }

  /** What loadStindex gets out of the index file. */
  function IndexImage(aead: Aead, key: seq<byte>, file: seq<byte>): Option<seq<byte>>
  {
    if |file| < AEAD_NPUB then None else aead.open(key, file[..AEAD_NPUB], file[AEAD_NPUB..])
  }

  /** What the loader relies on, if the file opens and decrypts at all. */
  predicate IndexReadable(aead: Aead, key: seq<byte>, file: seq<byte>)
  {
    var image := IndexImage(aead, key, file);
    image.Some? ==> Stindex.Loadable(image.value)
  }

  /** The index a start gets; nobody has mail if the file cannot be read. */
  function LoadedIndex(aead: Aead, key: seq<byte>, file: seq<byte>): (idx: seq<Stindex.Index>)
    requires IndexReadable(aead, key, file)
    ensures |idx| == USERS && Stindex.AllOk(idx)
  {
    var image := IndexImage(aead, key, file);
    if image.Some? then Stindex.Parse(image.value) else seq(USERS, _ => Stindex.NOTHING)
  }

  /** A user's mailbox depends on the index only through its live part. */
  lemma {:induction false} LiveDetermines(count: u16, cells: Cells, count': u16, cells': Cells, file: Option<seq<byte>>)
    requires UserOk(count, cells, file)
    requires count' <= |cells'.bc| && count' <= |cells'.id| && LiveOne(count', cells') == LiveOne(count, cells)
    ensures UserOk(count', cells', file) && SlotOf(count', cells', file) == SlotOf(count, cells, file)
  {
    assert count' == |LiveOne(count', cells').bc| == |LiveOne(count, cells).bc| == count;
  }

  /** Conversely, the same mailbox from the same file means the same live part. */
  lemma {:induction false} SlotDetermines(count: u16, cells: Cells, count': u16, cells': Cells, file: Option<seq<byte>>)
    requires UserOk(count, cells, file) && UserOk(count', cells', file)
    requires SlotOf(count', cells', file) == SlotOf(count, cells, file)
    ensures LiveOne(count', cells') == LiveOne(count, cells)
  {
    OkFacts(count, cells, file);
    OkFacts(count', cells', file);
    if count > 0 {
      var bc, bc' := cells.bc[..count], cells'.bc[..count'];
      CutSizes(file.value, bc);
      CutSizes(file.value, bc');
      forall i | 0 <= i < count ensures bc[i] == bc'[i] {
        assert Size(bc[i]) == |Cut(file.value, bc)[i]| == |Cut(file.value, bc')[i]| == Size(bc'[i]);
      }
      assert bc == bc';
    }
  }

  lemma {:induction false} SameStart(eid: string, counts: seq<u16>, stindex: seq<Cells>, counts': seq<u16>, stindex': seq<Cells>, files: Files)
    requires |eid| == 64 && AllAgree(eid, counts, stindex, files) && |counts'| == |stindex'| == USERS
    requires forall u :: 0 <= u < USERS ==> counts'[u] <= |stindex'[u].bc| && counts'[u] <= |stindex'[u].id|
    ensures Live(counts', stindex') == Live(counts, stindex) <==>
      AllAgree(eid, counts', stindex', files) && SlotsOf(eid, counts', stindex', files) == SlotsOf(eid, counts, stindex, files)
  {
    hide Mailbox.UserOk, Mailbox.SlotOf, LiveOne;
    if Live(counts', stindex') == Live(counts, stindex) {
      forall u | 0 <= u < USERS
        ensures UserOk(counts'[u], stindex'[u], FileOf(eid, files, u))
        ensures SlotOf(counts'[u], stindex'[u], FileOf(eid, files, u)) == SlotOf(counts[u], stindex[u], FileOf(eid, files, u))
      {
        assert Live(counts', stindex')[u] == Live(counts, stindex)[u];
        LiveDetermines(counts[u], stindex[u], counts'[u], stindex'[u], FileOf(eid, files, u));
      }
    }
    if AllAgree(eid, counts', stindex', files) && SlotsOf(eid, counts', stindex', files) == SlotsOf(eid, counts, stindex, files) {
      forall u | 0 <= u < USERS ensures LiveOne(counts'[u], stindex'[u]) == LiveOne(counts[u], stindex[u]) {
        assert SlotsOf(eid, counts', stindex', files)[u] == SlotsOf(eid, counts, stindex, files)[u];
        SlotDetermines(counts[u], stindex[u], counts'[u], stindex'[u], FileOf(eid, files, u));
      }
    }
  }

  /** Without an index, every file is there but none is known. */
  lemma {:induction false} ForgottenStart(eid: string, counts: seq<u16>, stindex: seq<Cells>, counts': seq<u16>, stindex': seq<Cells>, files: Files)
    requires |eid| == 64 && AllAgree(eid, counts, stindex, files) && |counts'| == |stindex'| == USERS
    requires forall u :: 0 <= u < USERS ==> counts'[u] <= |stindex'[u].bc| && counts'[u] <= |stindex'[u].id|
    requires Live(counts', stindex') == seq(USERS, _ => Stindex.NOTHING)
    ensures AllAgree(eid, counts', stindex', files)
    ensures forall u :: 0 <= u < USERS ==>
      SlotsOf(eid, counts', stindex', files)[u] == Runs.Forgotten(SlotsOf(eid, counts, stindex, files)[u])
  {
    hide Mailbox.UserOk, Mailbox.SlotOf;
    forall u | 0 <= u < USERS
      ensures UserOk(counts'[u], stindex'[u], FileOf(eid, files, u))
      ensures SlotOf(counts'[u], stindex'[u], FileOf(eid, files, u)) == Runs.Forgotten(SlotOf(counts[u], stindex[u], FileOf(eid, files, u)))
    {
      assert Live(counts', stindex')[u] == Stindex.NOTHING;
      assert counts'[u] == |LiveOne(counts'[u], stindex'[u]).bc| == 0;
      NoMailbox(stindex'[u], FileOf(eid, files, u));
      OkFacts(counts[u], stindex[u], FileOf(eid, files, u));
    }
  }

  /** The live parts agree exactly when the mailboxes have the same index. */
  lemma {:induction false} SameLiveOne(count: u16, cells: Cells, file: Option<seq<byte>>, count': u16, cells': Cells, file': Option<seq<byte>>)
    requires UserOk(count, cells, file) && UserOk(count', cells', file')
    ensures LiveOne(count', cells') == LiveOne(count, cells) <==> SameIndex(SlotOf(count, cells, file), SlotOf(count', cells', file'))
  {
    hide Mailbox.Ids, Mailbox.Agrees, Mailbox.Flatten, Mailbox.Total, Mailbox.Cut;
    OkFacts(count, cells, file);
    OkFacts(count', cells', file');
    if count > 0 && count' == count {
      var bc, bc' := cells.bc[..count], cells'.bc[..count];
      CutSizes(file.value, bc);
      CutSizes(file'.value, bc');
      if bc != bc' {
        var i :| 0 <= i < count && bc[i] != bc'[i];
        assert |Cut(file.value, bc)[i]| != |Cut(file'.value, bc')[i]|;
      }
    }
  }

  lemma {:induction false} SameLiveParts(eid: string, u: nat, counts: seq<u16>, stindex: seq<Cells>, files: Files,
                                         counts': seq<u16>, stindex': seq<Cells>, files': Files)
    requires |eid| == 64 && u < USERS
    requires AllAgree(eid, counts, stindex, files) && AllAgree(eid, counts', stindex', files')
    requires OnlyUser(eid, u, counts, stindex, files, counts', stindex', files')
    ensures Live(counts', stindex') == Live(counts, stindex) <==>
      SameIndex(SlotsOf(eid, counts, stindex, files)[u], SlotsOf(eid, counts', stindex', files')[u])
  {
    hide Mailbox.UserOk, Mailbox.SlotOf, LiveOne, Mailbox.SameIndex;
    SameLiveOne(counts[u], stindex[u], FileOf(eid, files, u), counts'[u], stindex'[u], FileOf(eid, files', u));
    var l, l' := Live(counts, stindex), Live(counts', stindex');
    assert forall v :: 0 <= v < USERS && v != u ==> l[v] == l'[v];
    assert l[u] == LiveOne(counts[u], stindex[u]) && l'[u] == LiveOne(counts'[u], stindex'[u]);
    if l[u] == l'[u] { assert l == l'; }
  }

  lemma {:induction false} NothingLive(eid: string, counts: seq<u16>, stindex: seq<Cells>, files: Files)
    requires |eid| == 64 && AllAgree(eid, counts, stindex, files)
    ensures Live(counts, stindex) == seq(USERS, _ => Stindex.NOTHING) <==> Runs.NoMail(SlotsOf(eid, counts, stindex, files))
  {
    hide Mailbox.UserOk, Mailbox.SlotOf;
    var slots, l := SlotsOf(eid, counts, stindex, files), Live(counts, stindex);
    forall u | 0 <= u < USERS ensures l[u] == Stindex.NOTHING <==> !slots[u].Box? {
      OkFacts(counts[u], stindex[u], FileOf(eid, files, u));
      assert l[u] == LiveOne(counts[u], stindex[u]);
    }
    if Runs.NoMail(slots) { assert l == seq(USERS, _ => Stindex.NOTHING); }
    else {
      var v :| 0 <= v < USERS && slots[v].Box?;
      assert l[v] != Stindex.NOTHING;
    }
  }

  /** Everything an operation may change. */
  datatype Disk = Disk(counts: seq<u16>, stindex: seq<Cells>, files: Files, stindexFile: seq<byte>)

  ghost predicate DiskOk(eid: string, d: Disk)
    requires |eid| == 64
  {
    AllAgree(eid, d.counts, d.stindex, d.files)
  }

  ghost predicate DurableDisk(aead: Aead, key: seq<byte>, d: Disk)
    requires |d.counts| == |d.stindex|
  {
    && |d.stindexFile| >= AEAD_NPUB
    && aead.open(key, d.stindexFile[..AEAD_NPUB], d.stindexFile[AEAD_NPUB..]) == Some(Stindex.Image(Live(d.counts, d.stindex)))
  }

  ghost predicate CurrentDisk(aead: Aead, key: seq<byte>, d: Disk)
    requires |d.counts| == |d.stindex|
  {
    IndexReadable(aead, key, d.stindexFile) && LoadedIndex(aead, key, d.stindexFile) == Live(d.counts, d.stindex)
  }

  /** The index file after an operation: untouched if the index was not to be saved,
      or could not be opened; else as the save left it. */
  ghost predicate RecordedDisk(aead: Aead, key: seq<byte>, d: Disk, d': Disk, saving: bool, f: Faults)
    requires |d.counts| == |d.stindex| && |d'.counts| == |d'.stindex|
  {
    if !saving then d'.stindexFile == d.stindexFile && Live(d'.counts, d'.stindex) == Live(d.counts, d.stindex)
    else if !f.saveOpen then d'.stindexFile == d.stindexFile
    else if f.saveWrite then DurableDisk(aead, key, d')
    else d'.stindexFile == []
  }

  /** Whether the index file is up to date after an operation on user u. */
  lemma {:induction false} RecordedCurrent(aead: Aead, key: seq<byte>, eid: string, u: nat, d: Disk, d': Disk, saving: bool, f: Faults)
    requires |eid| == 64 && u < USERS && DiskOk(eid, d) && DiskOk(eid, d')
    requires OnlyUser(eid, u, d.counts, d.stindex, d.files, d'.counts, d'.stindex, d'.files)
    requires RecordedDisk(aead, key, d, d', saving, f)
    ensures IndexReadable(aead, key, d.stindexFile) ==> IndexReadable(aead, key, d'.stindexFile)
    ensures !saving ==> (CurrentDisk(aead, key, d') <==> CurrentDisk(aead, key, d))
    ensures var slots := SlotsOf(eid, d'.counts, d'.stindex, d'.files);
      && (saving && f.saveOpen ==> (CurrentDisk(aead, key, d') <==> f.saveWrite || Runs.NoMail(slots)))
      && (saving && !f.saveOpen && CurrentDisk(aead, key, d) ==>
           (CurrentDisk(aead, key, d') <==> SameIndex(SlotsOf(eid, d.counts, d.stindex, d.files)[u], slots[u])))
  {
    hide Live, Stindex.Image, Stindex.Parse, Mailbox.SameIndex, Stindex.Loadable;
    if saving && !f.saveOpen {
      SameLiveParts(eid, u, d.counts, d.stindex, d.files, d'.counts, d'.stindex, d'.files);
    } else if saving && f.saveWrite {
      Stindex.ImageRoundTrip(Live(d'.counts, d'.stindex));
    } else if saving {
      NothingLive(eid, d'.counts, d'.stindex, d'.files);
    }
  }

  lemma {:induction false} OnlyWelcome(count: u16, cells: Cells, wm: Evp)
    requires |wm| == Size(BlockCount(|wm|)) && EnvelopeId(wm) == 0
    requires count <= |cells.bc| && count <= |cells.id|
    requires LiveOne(count, cells) == Stindex.Index([BlockCount(|wm|)], [0])
    ensures UserOk(count, cells, Some(wm)) && SlotOf(count, cells, Some(wm)) == Box([wm])
  {
    var welcome := Cells([BlockCount(|wm|)], [0]);
    FreshUser(welcome, wm);
    assert welcome.bc[..1] == welcome.bc && welcome.id[..1] == welcome.id;
    LiveDetermines(1, welcome, count, cells, Some(wm));
  }

  lemma {:induction false} OtherFile(eid: string, u: nat)
    requires |eid| == 64 && Charset.NoRepeat(eid) && 0 < u < USERS
    ensures Charset.Path(eid, u) != Charset.Path(eid, 0)
  {
    if Charset.Path(eid, u) == Charset.Path(eid, 0) {
      Charset.PathInjective(eid, u, 0);
      assert false;
    }
  }

  /** The index Creator leaves: one envelope of user 0. */
  function CreatorIndex(bc: u16): (idx: seq<Stindex.Index>)
    ensures |idx| == USERS
  {
    [Stindex.Index([bc], [0])] + seq(USERS - 1, _ => Stindex.NOTHING)
  }

  lemma {:induction false} CreatorDisk(aead: Aead, key: seq<byte>, nonce: seq<byte>, bc: u16)
    requires aead.Lawful() && |nonce| == AEAD_NPUB
    ensures var image := Stindex.CreatorImage(bc);
            && IndexImage(aead, key, nonce + aead.seal(key, nonce, image)) == Some(image)
            && Stindex.AllOk(CreatorIndex(bc)) && image == Stindex.Image(CreatorIndex(bc))
            && Stindex.Loadable(image) && Stindex.Parse(image) == CreatorIndex(bc)
  {
    var sealed := aead.seal(key, nonce, Stindex.CreatorImage(bc));
    var disk := nonce + sealed;
    assert disk[..AEAD_NPUB] == nonce && disk[AEAD_NPUB..] == sealed;
    Stindex.CreatorImageIs(bc);
    Stindex.ImageRoundTrip(CreatorIndex(bc));
  }

  lemma {:induction false} CreatorSlots(eid: string, counts: seq<u16>, stindex: seq<Cells>, wm: Evp)
    requires |eid| == 64 && Charset.NoRepeat(eid) && |counts| == |stindex| == USERS
    requires |wm| == Size(BlockCount(|wm|)) && EnvelopeId(wm) == 0
    requires forall u :: 0 <= u < USERS ==> counts[u] <= |stindex[u].bc| && counts[u] <= |stindex[u].id|
    requires Live(counts, stindex) == CreatorIndex(BlockCount(|wm|))
    ensures var files := map[Charset.Path(eid, 0) := wm];
            && AllAgree(eid, counts, stindex, files)
            && SlotsOf(eid, counts, stindex, files) == [Box([wm])] + seq(USERS - 1, _ => NoFile)
  {
    var files := map[Charset.Path(eid, 0) := wm];
    forall u | 0 <= u < USERS
      ensures UserOk(counts[u], stindex[u], FileOf(eid, files, u))
      ensures SlotOf(counts[u], stindex[u], FileOf(eid, files, u)) == if u == 0 then Box([wm]) else NoFile
    {
      assert Live(counts, stindex)[u] == CreatorIndex(BlockCount(|wm|))[u];
      if u == 0 {
        OnlyWelcome(counts[u], stindex[u], wm);
      } else {
        OtherFile(eid, u);
        assert LiveOne(counts[u], stindex[u]).bc == [];
        NoMailbox(stindex[u], None);
      }
    }
  }

  /** The live part of the index is the one that describes the mailboxes. */
  lemma {:induction false} LiveDescribes(eid: string, counts: seq<u16>, stindex: seq<Cells>, files: Files)
    requires |eid| == 64 && AllAgree(eid, counts, stindex, files)
    ensures Live(counts, stindex) == Runs.IndexesOf(SlotsOf(eid, counts, stindex, files))
  {
    hide Mailbox.UserOk, Mailbox.SlotOf, LiveOne;
    var slots := SlotsOf(eid, counts, stindex, files);
    forall u | 0 <= u < USERS ensures Live(counts, stindex)[u] == Runs.IndexOf(slots[u]) {
      LiveOneDescribes(counts[u], stindex[u], FileOf(eid, files, u));
    }
  }

  lemma {:induction false} LiveOneDescribes(count: u16, cells: Cells, file: Option<seq<byte>>)
    requires UserOk(count, cells, file)
    ensures LiveOne(count, cells) == Runs.IndexOf(SlotOf(count, cells, file))
  {
    SlotColumns(count, cells, file);
    if count > 0 { Browse.SizesGiveBlocks(SlotOf(count, cells, file).box, cells.bc[..count]); }
  }

  /** What a start would load after an operation. */
  lemma {:induction false} RecordedLoads(aead: Aead, key: seq<byte>, d: Disk, d': Disk, saving: bool, f: Faults)
    requires |d.counts| == |d.stindex| == |d'.counts| == |d'.stindex| == USERS
    requires IndexReadable(aead, key, d.stindexFile) && RecordedDisk(aead, key, d, d', saving, f)
    ensures IndexReadable(aead, key, d'.stindexFile)
    ensures LoadedIndex(aead, key, d'.stindexFile) ==
      if !saving || !f.saveOpen then LoadedIndex(aead, key, d.stindexFile)
      else if f.saveWrite then Live(d'.counts, d'.stindex)
      else seq(USERS, _ => Stindex.NOTHING)
  {
    hide Live, Stindex.Image, Stindex.Parse, Stindex.Loadable;
    if saving && f.saveOpen && f.saveWrite { Stindex.ImageRoundTrip(Live(d'.counts, d'.stindex)); }
  }

  /** The live columns describe the list they stand for. */
  lemma {:induction false} SlotColumns(count: u16, cells: Cells, file: Option<seq<byte>>)
    requires UserOk(count, cells, file)
    ensures count <= |cells.bc| && count <= |cells.id|
    ensures var box := Browse.BoxOf(SlotOf(count, cells, file));
            && Browse.SizesOf(box, cells.bc[..count]) && Ids(box) == cells.id[..count]
            && (box == [] || BoxOk(box)) && (count > 0 <==> box != [])
            && (file.Some? ==> Flatten(box) <= file.value)
  {
    OkFacts(count, cells, file);
    if count > 0 { CutSizes(file.value, cells.bc[..count]); }
  }

  class Storage {
    const c: Config
    const aead: Aead
    const stiKey: seq<byte>
    const eid: string
    var counts: seq<u16>
    var stindex: seq<Cells>
    var files: Files
    var stindexFile: seq<byte>

    ghost predicate Shape()
      reads this
    {
      && c.p.Lawful() && aead.Lawful()
      && |eid| == 64 && Charset.NoRepeat(eid)
      && |counts| == |stindex| == USERS
    }

    ghost predicate Valid()
      reads this
    {
      Shape() && AllAgree(eid, counts, stindex, files)
    }

    ghost predicate UserValid(u: nat)
      requires Shape() && u < USERS
      reads this
    {
      UserOk(counts[u], stindex[u], FileOf(eid, files, u))
    }

    /** User u's mailbox as a list of envelopes. */
    ghost function SlotAt(u: nat): (s: Slot)
      requires Shape() && u < USERS && UserValid(u)
      reads this
      ensures SlotOk(s)
    {
      OkFacts(counts[u], stindex[u], FileOf(eid, files, u));
      SlotOf(counts[u], stindex[u], FileOf(eid, files, u))
    }

    ghost function OnDisk(): Disk
      reads this
    {
      Disk(counts, stindex, files, stindexFile)
    }

    /** The index file holds the index in memory, sealed. */
    ghost predicate Durable()
      requires Shape()
      reads this
    {
      DurableDisk(aead, stiKey, OnDisk())
    }

    twostate predicate Recorded(saving: bool, f: Faults)
      requires Shape() && old(Shape())
      reads this
    {
      RecordedDisk(aead, stiKey, old(OnDisk()), OnDisk(), saving, f)
    }

    ghost predicate Readable()
      reads this
    {
      IndexReadable(aead, stiKey, stindexFile)
    }

    /** The index a start would load now. */
    ghost function Announced(): seq<Stindex.Index>
      requires Readable()
      reads this
    {
      LoadedIndex(aead, stiKey, stindexFile)
    }

    /** Starting now would find the index as it is in memory. */
    ghost predicate Current()
      requires Shape()
      reads this
    {
      CurrentDisk(aead, stiKey, OnDisk())
    }

    /** The other storage has every mailbox this one has. */
    ghost predicate SameMail(t: Storage)
      requires Valid()
      reads this, t
    {
      t.Valid() && t.Slots() == Slots()
    }

    twostate predicate OnlyUserChanged(u: nat)
      requires Shape() && old(Shape())
      reads this
    {
      OnlyUser(eid, u, old(counts), old(stindex), old(files), counts, stindex, files)
    }

    ghost function Slots(): (r: seq<Slot>)
      requires Valid()
      reads this
      ensures |r| == USERS
      ensures forall u :: 0 <= u < USERS ==> SlotOk(r[u])
    {
      SlotsOf(eid, counts, stindex, files)
    }

    // ---- Starting up ----------------------------------------------------------------

    /** ioSetup: file names from the key stream, index from its file; whatever
        stops the index from loading leaves every user without mail. */
    constructor Start(c: Config, aead: Aead, stiKey: seq<byte>, src: seq<byte>, files: Files, stindexFile: seq<byte>)
      requires c.p.Lawful() && aead.Lawful() && IndexReadable(aead, stiKey, stindexFile)
      ensures this.c == c && this.aead == aead && this.stiKey == stiKey
      ensures var cs := Charset.CharsetOf(src, Charset.B64_SET);
              && eid == cs + seq(64 - |cs|, _ => '?')
              && (Charset.Covers(src, 64) ==> eid == cs && Shape())
      ensures this.files == files && this.stindexFile == stindexFile
      ensures |counts| == |stindex| == USERS
      ensures forall u :: 0 <= u < USERS ==> counts[u] <= |stindex[u].bc| && counts[u] <= |stindex[u].id|
      ensures Live(counts, stindex) == LoadedIndex(aead, stiKey, stindexFile)
    {
      Charset.B64NoRepeat();
      if Charset.Covers(src, 64) { Charset.CharsetPermutes(src, Charset.B64_SET); }
      var chars := Charset.RescanningCharset(src, Charset.B64_SET);
      var image := IndexImage(aead, stiKey, stindexFile);
      var idx := seq(USERS, _ => Stindex.NOTHING);
      if image.Some? { idx := Stindex.LoadImage(image.value); }
      this.c, this.aead, this.stiKey, this.eid := c, aead, stiKey, chars[..];
      this.files, this.stindexFile := files, stindexFile;
      this.counts := Stindex.Counts(idx);
      this.stindex := seq(USERS, u requires 0 <= u < USERS => Cells(idx[u].bc, idx[u].id));
      new;
      forall u | 0 <= u < USERS ensures LiveOne(this.counts[u], this.stindex[u]) == idx[u] {
        assert Stindex.IndexOk(idx[u]);
        assert idx[u].bc[..|idx[u].bc|] == idx[u].bc && idx[u].id[..|idx[u].id|] == idx[u].id;
      }
      assert Live(this.counts, this.stindex) == idx;
    }

    /** Starting again with the same keys and files finds every mailbox as it was if
        and only if the index file holds the index in memory; from an empty one, it
        finds nobody's mail, only their files. */
    static method Restart(s: Storage, src: seq<byte>) returns (t: Storage)
      requires s.Valid() && s.Readable()
      requires Charset.Covers(src, 64) && s.eid == Charset.CharsetOf(src, Charset.B64_SET)
      ensures fresh(t) && t.Shape()
      ensures s.SameMail(t) <==> s.Current()
      ensures s.stindexFile == [] ==>
        t.Valid() && forall u :: 0 <= u < USERS ==> t.Slots()[u] == Runs.Forgotten(s.Slots()[u])
    {
      t := new Storage.Start(s.c, s.aead, s.stiKey, src, s.files, s.stindexFile);
      SameStart(s.eid, s.counts, s.stindex, t.counts, t.stindex, s.files);
      if s.stindexFile == [] { ForgottenStart(s.eid, s.counts, s.stindex, t.counts, t.stindex, s.files); }
    }

    /** The disk Creator leaves: one welcome envelope, in a file it names from the
        first octet of the key stream alone. Storage starts from it in agreement,
        with the master administrator's mailbox and no other. Nothing comes of it
        if the envelope cannot be made. */
    static method StartFromCreator(c: Config, aead: Aead, stiKey: seq<byte>, src: seq<byte>, welcome: seq<byte>,
                                   keys: Keys, e: Entropy, nonce: seq<byte>) returns (t: Storage?)
      requires c.p.Lawful() && aead.Lawful() && Charset.Covers(src, 64) && src != []
      requires |e.rnd| >= BLOCK && |nonce| == AEAD_NPUB
      ensures var wm := SysSeal(c, welcome, keys, e);
        && (t != null <==> wm.Evp?)
        && (t != null ==> fresh(t) && t.Valid() && t.Current() && t.Slots() == [Box([wm.bytes])] + seq(USERS - 1, _ => NoFile))
    {
      var sealing := SysMsg(c, welcome, keys, e);
      if !sealing.Evp? { return null; }
      SysSealShape(c, welcome, keys, e);
      var wm := sealing.bytes;
      var eidChar0 := Charset.FirstChar(src[0], Charset.B64_SET);
      var path := "/Msg/" + [eidChar0, eidChar0];
      var disk := nonce + aead.seal(stiKey, nonce, Stindex.CreatorImage(BlockCount(|wm|)));
      CreatorDisk(aead, stiKey, nonce, BlockCount(|wm|));
      t := new Storage.Start(c, aead, stiKey, src, map[path := wm], disk);
      Charset.B64NoRepeat();
      Charset.FirstCharAgrees(src, Charset.B64_SET);
      assert Charset.Path(t.eid, 0) == path;
      CreatorSlots(t.eid, t.counts, t.stindex, wm);
    }

    // ---- Saving the index ---------------------------------------------------------

    /** saveStindex: the file is truncated on opening, so a write that fails then
        leaves it empty. */
    method SaveStindex(f: Faults, nonce: seq<byte>)
      requires Shape() && |nonce| == AEAD_NPUB
      modifies this`stindexFile
      ensures Recorded(true, f)
    {
      var image := Stindex.SaveImage(Live(counts, stindex));
      var sealed := aead.seal(stiKey, nonce, image);
      if !f.saveOpen { return; }
      stindexFile := [];  // O_TRUNC
      if !f.saveWrite { return; }
      stindexFile := nonce + sealed;
      assert stindexFile[..AEAD_NPUB] == nonce && stindexFile[AEAD_NPUB..] == sealed;
    }

    // ---- Operations ---------------------------------------------------------------------

    static method SysMsg(c: Config, content: seq<byte>, keys: Keys, e: Entropy) returns (r: Sealing)
      requires c.p.Lawful() && |e.rnd| >= BLOCK
      ensures r == SysSeal(c, content, keys, e)
    {
      var msg := new byte[HDR + 1 + |content|](_ => 0);
      MsgInit(msg, 1, 0, e.now);
      msg[HDR] := 192;
      forall i | 0 <= i < |content| { msg[HDR + 1 + i] := content[i]; }
      assert msg[..HDR] == Header(1, 0, e.now);
      assert msg[..] == Header(1, 0, e.now) + [192] + content;
      SignMessage(c.p, c.ssk, keys.usk, msg);
      r := Msg2Evp(c.p, msg[..], keys.pwk, None, e.draws, e.rnd);
    }

    method AccStorageCreate(uid: nat, keys: Keys, e: Entropy, f: Faults, nonce: seq<byte>) returns (r: Reply)
      requires Valid() && uid < USERS && |e.rnd| >= BLOCK && |nonce| == AEAD_NPUB
      modifies this
      ensures Valid() && OnlyUserChanged(uid)
      ensures (SlotAt(uid), r) == Step(c, old(SlotAt(uid)), Create(keys, e, f))
      ensures Created(c, old(SlotAt(uid)), keys, e, f, SlotAt(uid), r)
      ensures Recorded(r.Ok?, f)
    {
      hide Created;
      assert UserValid(uid);
      CreateSpec(c, SlotAt(uid), keys, e, f);
      if counts[uid] > 0 { return Exist; }
      var wm := SysMsg(c, c.welcome, keys, e);
      SysSealShape(c, c.welcome, keys, e);
      r := CreateFile(uid, wm, f, nonce);
    }

    method CreateFile(uid: nat, wm: Sealing, f: Faults, nonce: seq<byte>) returns (r: Reply)
      requires Valid() && uid < USERS && |nonce| == AEAD_NPUB && UserValid(uid) && counts[uid] == 0
      requires wm.Evp? ==> |wm.bytes| == Size(BlockCount(|wm.bytes|)) && EnvelopeId(wm.bytes) == 0
      modifies this
      ensures Valid() && OnlyUserChanged(uid) && UserValid(uid)
      ensures (SlotAt(uid), r) == CreateStep(old(SlotAt(uid)), wm, f)
      ensures Recorded(r.Ok?, f)
    {
      hide Mailbox.UserOk, Mailbox.SlotOf, Mailbox.Flatten, Live, Crypto.Primitives.Lawful, Crypto.Aead.Lawful, Stindex.Image, Charset.NoRepeat, Charset.Path;
      OkFacts(counts[uid], stindex[uid], FileOf(eid, files, uid));
      if wm.Refused? { return Err; }
      if wm.Drawing? { return Pending; }
      var path := Charset.Path(eid, uid);

      if path in files || !f.open { return Err; }  // O_EXCL
      files := files[path := []];
      if !f.write {
        NoMailbox(stindex[uid], Some([]));
        OnlyUserMatters(eid, uid, old(counts), old(stindex), old(files), counts, stindex, files);
        return Err;
      }
      files := files[path := wm.bytes];

      stindex := stindex[uid := Cells([BlockCount(|wm.bytes|)], [0])];
      counts := counts[uid := 1];
      SaveStindex(f, nonce);
      FreshUser(stindex[uid], wm.bytes);
      OnlyUserMatters(eid, uid, old(counts), old(stindex), old(files), counts, stindex, files);
      r := Ok;
    }

    method AccStorageDelete(uid: nat, f: Faults, nonce: seq<byte>) returns (r: Reply)
      requires Valid() && uid < USERS && |nonce| == AEAD_NPUB
      modifies this
      ensures Valid() && OnlyUserChanged(uid) && UserValid(uid)
      ensures (SlotAt(uid), r) == Step(c, old(SlotAt(uid)), DeleteAccount(f))
      ensures AccountGone(old(SlotAt(uid)), f, SlotAt(uid), r)
      ensures Recorded(old(counts[uid]) > 0, f)
    {
      hide Mailbox.UserOk, Mailbox.SlotOf, Mailbox.Flatten, Live, Crypto.Primitives.Lawful, Crypto.Aead.Lawful, Stindex.Image, Charset.NoRepeat, Charset.Path;
      assert UserValid(uid);
      OkFacts(counts[uid], stindex[uid], FileOf(eid, files, uid));
      var path := Charset.Path(eid, uid);
      if counts[uid] == 0 {
        if f.unlink { files := files - {path}; }
        r := Ok;
      } else {
        stindex := stindex[uid := Cells([], [])];
        counts := counts[uid := 0];
        SaveStindex(f, nonce);
        if f.unlink { files := files - {path}; }
        r := if f.unlink then Ok else Err;
      }
      NoMailbox(stindex[uid], FileOf(eid, files, uid));
      OnlyUserMatters(eid, uid, old(counts), old(stindex), old(files), counts, stindex, files);
    }

    method StorageWrite(uid: nat, msg: array<byte>, maybeKeys: Option<Keys>, e: Entropy, f: Faults,
                        nonce: seq<byte>) returns (r: Reply)
      requires Valid() && uid < USERS && |e.rnd| >= BLOCK && |nonce| == AEAD_NPUB
      modifies this, msg
      ensures Valid() && OnlyUserChanged(uid)
      ensures (SlotAt(uid), r) == Step(c, old(SlotAt(uid)), Write(old(msg[..]), maybeKeys, e, f))
      ensures Written(c, old(SlotAt(uid)), old(msg[..]), maybeKeys, e, f, SlotAt(uid), r)
      ensures Recorded(r.Wrote?, f)
    {
      hide Written;
      assert UserValid(uid);
      WriteSpec(c, SlotAt(uid), msg[..], maybeKeys, e, f);
      if msg.Length < MIN_BLOCKS * BLOCK || msg.Length > MSG_MAX { return Err; }
      if counts[uid] == 0 { return Err; }
      if maybeKeys.None? { return Err; }
      var keys := maybeKeys.value;
      SignMessage(c.p, c.ssk, keys.usk, msg);
      var used := stindex[uid].id[..counts[uid]];
      var evp := Msg2Evp(c.p, msg[..], keys.pwk, Some(used), e.draws, e.rnd);
      assert evp == WriteSeal(c, old(SlotAt(uid)).box, old(msg[..]), keys, e);
      WriteSealShape(c, old(SlotAt(uid)).box, old(msg[..]), keys, e);
      r := AppendEnvelope(uid, evp, f, nonce);
    }

    method AppendEnvelope(uid: nat, evp: Sealing, f: Faults, nonce: seq<byte>) returns (r: Reply)
      requires Valid() && uid < USERS && |nonce| == AEAD_NPUB && counts[uid] > 0
      requires UserValid(uid)
      requires evp.Evp? ==> |evp.bytes| == Size(BlockCount(|evp.bytes|)) && EnvelopeId(evp.bytes) !in Ids(SlotAt(uid).box)
      modifies this
      ensures Valid() && OnlyUserChanged(uid)
      ensures UserValid(uid) && (SlotAt(uid), r) == WriteStep(old(SlotAt(uid)), evp, f)
      ensures Recorded(r.Wrote?, f)
    {
      hide Mailbox.UserOk, Mailbox.SlotOf, Mailbox.Flatten, Live, Crypto.Primitives.Lawful, Crypto.Aead.Lawful, Stindex.Image, Charset.NoRepeat, Charset.Path;
      OkFacts(counts[uid], stindex[uid], FileOf(eid, files, uid));
      if evp.Refused? { return Err; }
      if evp.Drawing? { return Pending; }
      GrowIndex(uid, BlockCount(|evp.bytes|), EnvelopeId(evp.bytes));
      if !f.open { return Err; }
      if !f.write { return Err; }
      CommitEnvelope(uid, evp.bytes);
      SaveStindex(f, nonce);
      r := Wrote(EnvelopeId(evp.bytes));
    }

    /** Room for one more entry in both columns, filled in but not yet counted. */
    method GrowIndex(uid: nat, bc: u16, id: u16)
      requires Valid() && uid < USERS && UserValid(uid) && counts[uid] > 0
      modifies this`stindex
      ensures Valid() && OnlyUserChanged(uid) && UserValid(uid) && SlotAt(uid) == old(SlotAt(uid))
      ensures Live(counts, stindex) == old(Live(counts, stindex))
      ensures var n := counts[uid];
              && |stindex[uid].bc| > n && |stindex[uid].id| > n
              && stindex[uid].bc[n] == bc && stindex[uid].id[n] == id
    {
      hide Mailbox.UserOk, Mailbox.SlotOf, Mailbox.Flatten, Live, Crypto.Primitives.Lawful, Crypto.Aead.Lawful, Stindex.Image, Charset.NoRepeat, Charset.Path;
      OkFacts(counts[uid], stindex[uid], FileOf(eid, files, uid));
      var count: nat := counts[uid];
      ghost var cells := stindex[uid];
      var bcCol := Realloc(stindex[uid].bc, count + 1)[count := bc];
      var idCol := Realloc(stindex[uid].id, count + 1)[count := id];
      assert bcCol[..count] == cells.bc[..count] && idCol[..count] == cells.id[..count];
      stindex := stindex[uid := Cells(bcCol, idCol)];
      SameLive(count, cells, stindex[uid], FileOf(eid, files, uid));
      assert Live(counts, stindex) == Live(old(counts), old(stindex));
      OnlyUserMatters(eid, uid, old(counts), old(stindex), old(files), counts, stindex, files);
    }

    /** The append itself, then the 16-bit increment that makes it count. */
    method CommitEnvelope(uid: nat, evp: Evp)
      requires Valid() && uid < USERS && UserValid(uid) && counts[uid] > 0
      requires |evp| == Size(BlockCount(|evp|)) && EnvelopeId(evp) !in Ids(SlotAt(uid).box)
      requires var n := counts[uid];
               && |stindex[uid].bc| > n && |stindex[uid].id| > n
               && stindex[uid].bc[n] == BlockCount(|evp|) && stindex[uid].id[n] == EnvelopeId(evp)
      modifies this`files, this`counts
      ensures Valid() && OnlyUserChanged(uid) && UserValid(uid)
      ensures var box := old(SlotAt(uid)).box;
              SlotAt(uid) == if |box| == 0xFFFF then Orphan(Flatten(box + [evp])) else Box(box + [evp])
    {
      hide Mailbox.UserOk, Mailbox.SlotOf, Mailbox.Flatten, Live, Crypto.Primitives.Lawful, Crypto.Aead.Lawful, Stindex.Image, Charset.NoRepeat, Charset.Path;
      OkFacts(counts[uid], stindex[uid], FileOf(eid, files, uid));
      var path := Charset.Path(eid, uid);
      var next := counts[uid] as int + 1;
      AppendedSlot(counts[uid], stindex[uid], files[path], evp);
      files := files[path := files[path] + evp];
      counts := counts[uid := next % 0x1_0000];
      OnlyUserMatters(eid, uid, old(counts), old(stindex), old(files), counts, stindex, files);
    }

    /** Including the wrap of the 16-bit count: the file is then orphaned. */
    lemma {:induction false} AppendedSlot(count: u16, cells: Cells, file: seq<byte>, evp: Evp)
      requires 0 < count && UserOk(count, cells, Some(file))
      requires |cells.bc| > count && |cells.id| > count
      requires cells.bc[count] == BlockCount(|evp|) && cells.id[count] == EnvelopeId(evp)
      requires |evp| == Size(BlockCount(|evp|)) && EnvelopeId(evp) !in cells.id[..count]
      ensures var n := count as int + 1; var box := SlotOf(count, cells, Some(file)).box;
        && UserOk(n % 0x1_0000, cells, Some(file + evp))
        && SlotOf(n % 0x1_0000, cells, Some(file + evp)) ==
           if count == 0xFFFF then Orphan(Flatten(box + [evp])) else Box(box + [evp])
    {
      hide Mailbox.Cut, Mailbox.Total, Mailbox.Ids, Mailbox.Agrees, Mailbox.Flatten, Envelope.EnvelopeId, Envelope.BlockCount, Envelope.Size;
      if count == 0xFFFF {
        OkFacts(count, cells, Some(file));
        FlattenAppend(SlotOf(count, cells, Some(file)).box, evp);
        NoMailbox(cells, Some(file + evp));
      } else {
        AppendUser(count, cells, cells, file, evp);
      }
    }

    lemma {:induction false} FoundAt(box: seq<Evp>, id: u16, i: nat)
      requires BoxOk(box) && i <= |box| && id !in Ids(box)[..i]
      requires i < |box| ==> Ids(box)[i] == id
      ensures Find(box, id) == i
    {
      var k := Find(box, id);
      assert forall j :: 0 <= j < i ==> Ids(box)[..i][j] == EnvelopeId(box[j]);
    }

    method StorageDelete(uid: nat, delId: u16, f: Faults, nonce: seq<byte>) returns (r: Reply)
      requires Valid() && uid < USERS && |nonce| == AEAD_NPUB
      modifies this
      ensures Shape() && OnlyUserChanged(uid)
      ensures r == DeleteStep(old(SlotAt(uid)), delId, f).1
      ensures Valid() <==> !DeleteBreaks(old(SlotAt(uid)), delId, f)
      ensures Valid() ==> SlotAt(uid) == DeleteStep(old(SlotAt(uid)), delId, f).0
      ensures Valid() ==> Deleted(old(SlotAt(uid)), delId, f, SlotAt(uid), r)
      ensures Recorded(r.Ok?, f)
    {
      hide Deleted;
      assert UserValid(uid);
      DeleteSpec(SlotAt(uid), delId, f);
      var path := Charset.Path(eid, uid);
      if path !in files || !f.open { return Err; }
      var n := counts[uid];
      var lenExpected := Browse.SumSizes(stindex[uid].bc[..n]);
      if |files[path]| != lenExpected { return Err; }
      if n == 0 { return NotExist; }
      r := DeleteFound(uid, delId, f, nonce);
    }

    method DeleteFound(uid: nat, delId: u16, f: Faults, nonce: seq<byte>) returns (r: Reply)
      requires Valid() && uid < USERS && |nonce| == AEAD_NPUB && UserValid(uid) && counts[uid] > 0 && f.open
      modifies this
      ensures Shape() && OnlyUserChanged(uid)
      ensures r == DeleteStep(old(SlotAt(uid)), delId, f).1
      ensures Valid() <==> !DeleteBreaks(old(SlotAt(uid)), delId, f)
      ensures Valid() ==> SlotAt(uid) == DeleteStep(old(SlotAt(uid)), delId, f).0
      ensures Recorded(r.Ok?, f)
    {
      hide Mailbox.Find, Mailbox.Total, Mailbox.Ids, AllAgree, Bytes.RemoveAt;
      hide Mailbox.UserOk, Mailbox.SlotOf, Mailbox.Flatten, Live, Crypto.Primitives.Lawful, Crypto.Aead.Lawful, Stindex.Image, Charset.NoRepeat, Charset.Path;
      OkFacts(counts[uid], stindex[uid], FileOf(eid, files, uid));
      var n := counts[uid];
      var i, filePos := FindEnvelope(stindex[uid].bc[..n], stindex[uid].id[..n], delId);
      FoundAt(SlotAt(uid).box, delId, i);
      assert i == Find(SlotAt(uid).box, delId);
      if i == n { return NotExist; }
      assert stindex[uid].bc[..n][..i] == stindex[uid].bc[..i];
      if i == n - 1 {
        r := DropLast(uid, filePos, f, nonce);
      } else {
        r := MoveDown(uid, i, filePos, f, nonce);
      }
    }

    /** The latest message: truncate only. */
    method DropLast(uid: nat, filePos: nat, f: Faults, nonce: seq<byte>) returns (r: Reply)
      requires Valid() && uid < USERS && |nonce| == AEAD_NPUB && UserValid(uid) && counts[uid] > 0
      requires filePos == Total(stindex[uid].bc[..counts[uid] - 1])
      modifies this
      ensures Valid() && OnlyUserChanged(uid) && UserValid(uid)
      ensures var s := old(SlotAt(uid));
              (SlotAt(uid), r) == if !f.truncate then (s, Err) else (Boxed(RemoveAt(s.box, |s.box| - 1)), Ok)
      ensures Recorded(r.Ok?, f)
    {
      hide Mailbox.UserOk, Mailbox.SlotOf, Mailbox.Flatten, Live, Crypto.Primitives.Lawful, Crypto.Aead.Lawful, Stindex.Image, Charset.NoRepeat, Charset.Path;
      OkFacts(counts[uid], stindex[uid], FileOf(eid, files, uid));
      if !f.truncate { return Err; }
      var path := Charset.Path(eid, uid);
      var evpBytes := (stindex[uid].bc[counts[uid] - 1] + MIN_BLOCKS) * BLOCK;
      DroppedUser(counts[uid], stindex[uid], files[path], filePos);
      var n := counts[uid];
      var shorter := files[path][..|files[path]| - evpBytes];
      files := files[path := shorter];
      counts := counts[uid := n - 1];
      SaveStindex(f, nonce);
      assert counts[uid] == n - 1 && FileOf(eid, files, uid) == Some(shorter);
      OnlyUserMatters(eid, uid, old(counts), old(stindex), old(files), counts, stindex, files);
      assert SlotAt(uid) == SlotOf(n - 1, stindex[uid], Some(shorter));
      r := Ok;
    }

    /** Any other message: shift the file, then close the gap in both columns. */
    method MoveDown(uid: nat, i: nat, filePos: nat, f: Faults, nonce: seq<byte>) returns (r: Reply)
      requires Valid() && uid < USERS && |nonce| == AEAD_NPUB && UserValid(uid)
      requires i + 1 < counts[uid] && filePos == Total(stindex[uid].bc[..i])
      modifies this
      ensures Shape() && OnlyUserChanged(uid)
      ensures var s := old(SlotAt(uid));
              && r == (if f.read && f.write && f.truncate then Ok else Err)
              && (Valid() <==> !(f.read && f.write && !f.truncate))
              && (Valid() ==> SlotAt(uid) == if r == Ok then Boxed(RemoveAt(s.box, i)) else s)
      ensures Recorded(r.Ok?, f)
    {
      hide Mailbox.UserOk, Mailbox.SlotOf, Mailbox.Flatten, Live, Crypto.Primitives.Lawful, Crypto.Aead.Lawful, Stindex.Image, Charset.NoRepeat, Charset.Path;
      OkFacts(counts[uid], stindex[uid], FileOf(eid, files, uid));
      var evpBytes := (stindex[uid].bc[i] + MIN_BLOCKS) * BLOCK;
      ghost var file := FileOf(eid, files, uid).value;
      var n := counts[uid];
      var after := CloseGap(n, stindex[uid], i, file, filePos, filePos + evpBytes);
      ghost var moved := Some(file[..filePos] + file[filePos + evpBytes..]);
      var ok := ShiftFile(uid, i, filePos, evpBytes, f);
      if !ok { return Err; }
      stindex := stindex[uid := after];
      counts := counts[uid := n - 1];
      SaveStindex(f, nonce);
      assert counts[uid] == n - 1 && stindex[uid] == after && FileOf(eid, files, uid) == moved;
      OnlyUserMatters(eid, uid, old(counts), old(stindex), old(files), counts, stindex, files);
      assert SlotAt(uid) == SlotOf(n - 1, after, moved);
      r := Ok;
    }

    /** Read what follows the envelope, write it over the envelope, cut off the end. */
    method ShiftFile(uid: nat, i: nat, filePos: nat, evpBytes: nat, f: Faults) returns (ok: bool)
      requires Valid() && uid < USERS && UserValid(uid)
      requires i + 1 < counts[uid] && filePos == Total(stindex[uid].bc[..i]) && evpBytes == Size(stindex[uid].bc[i])
      modifies this`files
      ensures OnlyUserChanged(uid)
      ensures ok == (f.read && f.write && f.truncate)
      ensures var file := old(FileOf(eid, files, uid)).value;
              && filePos + evpBytes <= |file|
              && (ok ==> FileOf(eid, files, uid) == Some(file[..filePos] + file[filePos + evpBytes..]))
      ensures !ok ==> (Valid() <==> !(f.read && f.write))
      ensures !ok && Valid() ==> files == old(files)
    {
      hide Mailbox.UserOk, Mailbox.SlotOf, Mailbox.Flatten, Live, Crypto.Primitives.Lawful, Crypto.Aead.Lawful, Stindex.Image, Charset.NoRepeat, Charset.Path;
      OkFacts(counts[uid], stindex[uid], FileOf(eid, files, uid));
      var path := Charset.Path(eid, uid);
      var file := files[path];
      MovedOnly(counts[uid], stindex[uid], file, i, filePos, filePos + evpBytes);
      if !f.read { return false; }
      var tmp := file[filePos + evpBytes..];
      if !f.write { return false; }
      var written := file[..filePos] + tmp + file[filePos + |tmp|..];
      assert written == file[..filePos] + file[filePos + evpBytes..] + file[|file| - evpBytes..];
      files := files[path := written];
      if !f.truncate {
        OnlyUserMatters(eid, uid, old(counts), old(stindex), old(files), counts, stindex, files);
        return false;
      }
      files := files[path := written[..|file| - evpBytes]];
      assert files[path] == file[..filePos] + tmp;
      ok := true;
    }

    method StorageEmpty(uid: nat, maybeKeys: Option<Keys>, e: Entropy, f: Faults, nonce: seq<byte>) returns (r: Reply)
      requires Valid() && uid < USERS && counts[uid] > 0 && |e.rnd| >= BLOCK && |nonce| == AEAD_NPUB
      modifies this
      ensures Shape() && OnlyUserChanged(uid)
      ensures r == Step(c, old(SlotAt(uid)), Empty(maybeKeys, e, f)).1
      ensures Valid() <==> !Breaks(c, old(SlotAt(uid)), Empty(maybeKeys, e, f))
      ensures Valid() ==> SlotAt(uid) == Step(c, old(SlotAt(uid)), Empty(maybeKeys, e, f)).0
      ensures Valid() ==> Emptied(c, old(SlotAt(uid)), maybeKeys, e, f, SlotAt(uid), r)
      ensures Recorded(r.Ok?, f)
    {
      hide Emptied;
      assert UserValid(uid);
      EmptySpec(c, SlotAt(uid), maybeKeys, e, f);
      if maybeKeys.None? { return Err; }
      var evp := SysMsg(c, c.emptied, maybeKeys.value, e);
      SysSealShape(c, c.emptied, maybeKeys.value, e);
      r := Replace(uid, evp, f, nonce);
    }

    method Replace(uid: nat, evp: Sealing, f: Faults, nonce: seq<byte>) returns (r: Reply)
      requires Valid() && uid < USERS && |nonce| == AEAD_NPUB && UserValid(uid) && counts[uid] > 0
      requires evp.Evp? ==> |evp.bytes| == Size(BlockCount(|evp.bytes|)) && EnvelopeId(evp.bytes) == 0
      modifies this
      ensures Shape() && OnlyUserChanged(uid)
      ensures r == EmptyStep(old(SlotAt(uid)), evp, f).1
      ensures Valid() <==> !EmptyBreaks(old(SlotAt(uid)), evp, f)
      ensures Valid() ==> SlotAt(uid) == EmptyStep(old(SlotAt(uid)), evp, f).0
      ensures Recorded(r.Ok?, f)
    {
      hide AllAgree, Envelope.BlockCount, Envelope.EnvelopeId, Envelope.Size, Mailbox.SlotOk, Mailbox.BoxOk, Mailbox.Ids, DurableDisk;
      hide Mailbox.UserOk, Mailbox.SlotOf, Mailbox.Flatten, Live, Crypto.Primitives.Lawful, Crypto.Aead.Lawful, Stindex.Image, Charset.NoRepeat, Charset.Path;
      OkFacts(counts[uid], stindex[uid], FileOf(eid, files, uid));
      if evp.Refused? { return Err; }
      if evp.Drawing? { return Pending; }
      var path := Charset.Path(eid, uid);
      if !f.open { return Err; }
      files := files[path := []];  // O_TRUNC
      if !f.write {
        TruncatedDisagrees(counts[uid], stindex[uid]);
        OnlyUserMatters(eid, uid, old(counts), old(stindex), old(files), counts, stindex, files);
        return Err;
      }
      files := files[path := evp.bytes];

      var after := ResetColumns(stindex[uid], counts[uid], BlockCount(|evp.bytes|));
      stindex := stindex[uid := after];
      counts := counts[uid := 1];
      SaveStindex(f, nonce);
      FreshUser(stindex[uid], evp.bytes);
      assert files == old(files)[path := evp.bytes];
      OnlyUserMatters(eid, uid, old(counts), old(stindex), old(files), counts, stindex, files);
      r := Ok;
    }

    // ---- Browsing ---------------------------------------------------------------------

    /** api_message_browse: user ID, optionally an envelope ID, both 16-bit. */
    method ApiMessageBrowse(req: seq<byte>, newer: bool, f: Faults) returns (r: Browse.BrowseReply)
      requires Valid() && (|req| >= 2 ==> FromLe(req[..2]) < USERS)
      requires |req| == 2 && newer ==> counts[FromLe(req[..2])] > 0
      ensures |req| != 2 && |req| != 4 ==> r == Browse.BadRequest
      ensures |req| == 2 ==> UserValid(FromLe(req[..2])) && r == Browse.BrowseResult(SlotAt(FromLe(req[..2])), None, newer, f)
      ensures |req| == 4 ==> FromLe(req[2..]) < 0x1_0000 && UserValid(FromLe(req[..2]))
                             && r == Browse.BrowseResult(SlotAt(FromLe(req[..2])), Some(FromLe(req[2..])), newer, f)
    {
      if |req| != 2 && |req| != 4 { return Browse.BadRequest; }
      var uid := FromLe(req[..2]);
      assert UserValid(uid);
      if |req| == 4 {
        FromLeBound(req[2..]);
        Ranges();
        r := BrowseUser(uid, Some(FromLe(req[2..])), newer, f);
      } else {
        r := BrowseUser(uid, None, newer, f);
      }
    }

    method BrowseUser(uid: nat, req: Option<u16>, newer: bool, f: Faults) returns (r: Browse.BrowseReply)
      requires Valid() && uid < USERS && UserValid(uid)
      requires req.None? && newer ==> counts[uid] > 0
      ensures r == Browse.BrowseResult(SlotAt(uid), req, newer, f)
    {
      hide Mailbox.UserOk, Mailbox.SlotOf, AllAgree, Browse.StartOf, Browse.Response, Browse.SizesOf, Mailbox.Ids, Mailbox.Flatten, Charset.Path;
      OkFacts(counts[uid], stindex[uid], FileOf(eid, files, uid));
      SlotColumns(counts[uid], stindex[uid], FileOf(eid, files, uid));
      var bc, id := stindex[uid].bc[..counts[uid]], stindex[uid].id[..counts[uid]];
      ghost var box := Browse.BoxOf(SlotAt(uid));
      var w := Browse.SelectStart(bc, id, req, newer, box);
      if w.Missing? { return Browse.NoSuchId; }
      if w.NothingMore? { return Browse.UpToDate; }
      var path := Charset.Path(eid, uid);
      if path !in files || !f.open { return Browse.Failed; }
      if !f.read { return Browse.Failed; }
      var out := Browse.BuildResponse(bc, files[path], w.start, box);
      r := Browse.Sent(out);
    }

    // ---- Whole runs ---------------------------------------------------------------------

    /** One call, dispatched. */
    method Apply(uid: nat, op: Op, nonce: seq<byte>) returns (r: Reply)
      requires Valid() && uid < USERS && WellFormed(c, op) && |nonce| == AEAD_NPUB
      requires UserValid(uid) && Enabled(SlotAt(uid), op) && !Breaks(c, SlotAt(uid), op)
      modifies this
      ensures Valid() && OnlyUserChanged(uid) && UserValid(uid)
      ensures (SlotAt(uid), r) == Step(c, old(SlotAt(uid)), op)
      ensures Recorded(Saves(old(SlotAt(uid)), op, r), op.f)
    {
      hide Mailbox.Agrees, Mailbox.Cut, Mailbox.Flatten, Mailbox.SysSeal, Mailbox.WriteSeal, Live, Charset.NoRepeat, RecordedDisk;
      match op
      case Create(keys, e, f) => r := AccStorageCreate(uid, keys, e, f, nonce);
      case DeleteAccount(f) => r := AccStorageDelete(uid, f, nonce);
      case Write(msg, keys, e, f) =>
        var buffer := new byte[|msg|](i requires 0 <= i < |msg| => msg[i]);
        assert buffer[..] == msg;
        r := StorageWrite(uid, buffer, keys, e, f, nonce);
      case Delete(id, f) => r := StorageDelete(uid, id, f, nonce);
      case Empty(keys, e, f) => r := StorageEmpty(uid, keys, e, f, nonce);
    }

    /** The same for the whole storage, and for the index file. */
    method DoCall(k: Runs.Call, nonce: seq<byte>) returns (r: Reply)
      requires Valid() && k.uid < USERS && WellFormed(c, k.op) && |nonce| == AEAD_NPUB
      requires Enabled(Slots()[k.uid], k.op) && !Breaks(c, Slots()[k.uid], k.op)
      modifies this
      ensures Valid()
      ensures Slots() == Runs.After(c, old(Slots()), k) && r == Step(c, old(Slots())[k.uid], k.op).1
      ensures Answers(c, old(Slots())[k.uid], k.op, Slots()[k.uid], r)
      ensures OnlyUserChanged(k.uid) && Recorded(Saves(old(Slots())[k.uid], k.op, r), k.op.f)
      ensures old(Readable()) ==> Readable() && Announced() == Runs.Announced(c, old(Announced()), old(Slots()), k)
    {
      hide LoadedIndex, IndexReadable, RecordedDisk, Live, Mailbox.SlotOf, Mailbox.UserOk, Mailbox.Step, Mailbox.Saves, SysSeal, WriteSeal, Answers;
      ghost var before := Slots();
      StepAnswers(c, before[k.uid], k.op);
      assert SlotAt(k.uid) == before[k.uid];
      r := Apply(k.uid, k.op, nonce);
      OnlyUserMatters(eid, k.uid, old(counts), old(stindex), old(files), counts, stindex, files);
      assert Slots() == Runs.After(c, before, k);
      if IndexReadable(aead, stiKey, old(stindexFile)) {
        RecordedLoads(aead, stiKey, old(OnDisk()), OnDisk(), Saves(before[k.uid], k.op, r), k.op.f);
        LiveDescribes(eid, counts, stindex, files);
      }
    }

    /** Stopping right after a call and starting again finds every mailbox as the call
        left it exactly when the call did not save the index, or could save it, or
        truncated it while nobody had mail, or could not open it and left it true. */
    method DoCallThenRestart(k: Runs.Call, nonce: seq<byte>, src: seq<byte>) returns (r: Reply, t: Storage)
      requires Valid() && k.uid < USERS && WellFormed(c, k.op) && |nonce| == AEAD_NPUB && Current()
      requires Enabled(Slots()[k.uid], k.op) && !Breaks(c, Slots()[k.uid], k.op)
      requires Charset.Covers(src, 64) && eid == Charset.CharsetOf(src, Charset.B64_SET)
      modifies this
      ensures Valid() && fresh(t) && t.Shape()
      ensures SameMail(t) <==> Runs.SurvivesRestart(c, old(Slots()), k)
    {
      hide LoadedIndex, IndexReadable, Live, Mailbox.SlotOf, Mailbox.UserOk, Mailbox.Step, Mailbox.Saves, Mailbox.SameIndex;
      r := DoCall(k, nonce);
      RecordedCurrent(aead, stiKey, eid, k.uid, old(OnDisk()), OnDisk(), Saves(old(Slots())[k.uid], k.op, r), k.op.f);
      t := Restart(this, src);
    }

    /** Every run of calls keeps files and index in agreement, and its replies and
        final mailboxes are those of the run on plain lists. */
    method Run(calls: seq<Runs.Call>, nonces: seq<seq<byte>>) returns (replies: seq<Reply>)
      requires Valid() && Runs.Admissible(c, Slots(), calls)
      requires |nonces| == |calls| && forall i :: 0 <= i < |nonces| ==> |nonces[i]| == AEAD_NPUB
      modifies this
      ensures Valid()
      ensures (Slots(), replies) == Runs.Run(c, old(Slots()), calls)
      ensures old(Readable()) ==>
        Readable() && Announced() == Runs.AnnouncedAfter(c, old(Announced()), old(Slots()), calls)
      decreases |calls|
    {
      hide LoadedIndex, IndexReadable, RecordedDisk, Live, SlotsOf, Mailbox.Step, Mailbox.Saves;
      if calls == [] { return []; }
      var r := DoCall(calls[0], nonces[0]);
      var rest := Run(calls[1..], nonces[1..]);
      replies := [r] + rest;
    }

    /** Stopping after any run of calls and starting again finds every mailbox as the
        run left it exactly when what the saves of the run, failed ones included, left
        in the index file describes the mailboxes there are. */
    method RunThenRestart(calls: seq<Runs.Call>, nonces: seq<seq<byte>>, src: seq<byte>)
      returns (replies: seq<Reply>, t: Storage)
      requires Valid() && Readable() && Runs.Admissible(c, Slots(), calls)
      requires |nonces| == |calls| && forall i :: 0 <= i < |nonces| ==> |nonces[i]| == AEAD_NPUB
      requires Charset.Covers(src, 64) && eid == Charset.CharsetOf(src, Charset.B64_SET)
      modifies this
      ensures Valid() && fresh(t) && t.Shape()
      ensures SameMail(t) <==>
        Runs.AnnouncedAfter(c, old(Announced()), old(Slots()), calls) == Runs.IndexesOf(Runs.Run(c, old(Slots()), calls).0)
    {
      hide LoadedIndex, IndexReadable, RecordedDisk, Live, Mailbox.SlotOf, Mailbox.UserOk, SlotsOf, Mailbox.Step, Mailbox.Saves;
      replies := Run(calls, nonces);
      LiveDescribes(eid, counts, stindex, files);
      t := Restart(this, src);
    }
  }
}
