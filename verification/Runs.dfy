/** Whole runs of storage operations, over all users. */
module Runs {
  import opened Bytes
  import opened Crypto
  import opened Envelope
  import opened Mailbox
  import Browse
  import Stindex

  datatype Call = Call(uid: nat, op: Op)

  /** A run the callers may ask for, under faults that never leave a file half
      replaced. */
  ghost predicate Admissible(c: Config, slots: seq<Slot>, calls: seq<Call>)
    requires c.p.Lawful()
    requires forall u :: 0 <= u < |slots| ==> SlotOk(slots[u])
    decreases |calls|
  {
    calls == [] ||
    (var k := calls[0];
     && k.uid < |slots| && WellFormed(c, k.op)
     && Enabled(slots[k.uid], k.op) && !Breaks(c, slots[k.uid], k.op)
     && Admissible(c, After(c, slots, k), calls[1..]))
  }

  ghost function After(c: Config, slots: seq<Slot>, k: Call): (r: seq<Slot>)
    requires c.p.Lawful()
    requires forall u :: 0 <= u < |slots| ==> SlotOk(slots[u])
    requires k.uid < |slots| && WellFormed(c, k.op)
    ensures |r| == |slots|
    ensures forall u :: 0 <= u < |r| ==> SlotOk(r[u])
  {
    StepKeepsSlotOk(c, slots[k.uid], k.op);
    slots[k.uid := Step(c, slots[k.uid], k.op).0]
  }

  /** Final slots and all replies. */
  ghost function Run(c: Config, slots: seq<Slot>, calls: seq<Call>): (r: (seq<Slot>, seq<Reply>))
    requires c.p.Lawful()
    requires forall u :: 0 <= u < |slots| ==> SlotOk(slots[u])
    requires Admissible(c, slots, calls)
    ensures |r.0| == |slots| && |r.1| == |calls|
    ensures forall u :: 0 <= u < |slots| ==> SlotOk(r.0[u])
    decreases |calls|
  {
    if calls == [] then (slots, []) else
    var rest := Run(c, After(c, slots, calls[0]), calls[1..]);
    (rest.0, [Step(c, slots[calls[0].uid], calls[0].op).1] + rest.1)
  }

  /** The operations one user's own calls carry, in order. */
  function OpsOf(calls: seq<Call>, u: nat): seq<Op>
  {
    if calls == [] then []
    else (if calls[0].uid == u then [calls[0].op] else []) + OpsOf(calls[1..], u)
  }

  ghost predicate OpsWellFormed(c: Config, ops: seq<Op>)
  {
    forall i :: 0 <= i < |ops| ==> WellFormed(c, ops[i])
  }

  ghost function RunOne(c: Config, s: Slot, ops: seq<Op>): (r: Slot)
    requires c.p.Lawful() && SlotOk(s) && OpsWellFormed(c, ops)
    ensures SlotOk(r)
    decreases |ops|
  {
    if ops == [] then s else
    StepKeepsSlotOk(c, s, ops[0]);
    RunOne(c, Step(c, s, ops[0]).0, ops[1..])
  }

  /** Isolation: over any run, what a user's mailbox becomes depends only on that
      user's own calls. */
  lemma {:induction false} RunIsolatesUsers(c: Config, slots: seq<Slot>, calls: seq<Call>, u: nat)
    requires c.p.Lawful() && u < |slots|
    requires forall v :: 0 <= v < |slots| ==> SlotOk(slots[v])
    requires Admissible(c, slots, calls)
    ensures OpsWellFormed(c, OpsOf(calls, u))
    ensures Run(c, slots, calls).0[u] == RunOne(c, slots[u], OpsOf(calls, u))
    decreases |calls|
  {
    hide Step, SlotOk;
    if calls != [] {
      var k := calls[0];
      RunIsolatesUsers(c, After(c, slots, k), calls[1..], u);
      if k.uid == u {
        assert OpsOf(calls, u)[1..] == OpsOf(calls[1..], u);
      } else {
        assert OpsOf(calls, u) == OpsOf(calls[1..], u);
      }
    }
  }

  // ---- Stopping and starting again ------------------------------------------------

  ghost predicate NoMail(slots: seq<Slot>)
  {
    forall v :: 0 <= v < |slots| ==> !slots[v].Box?
  }

  /** What is left of a mailbox when the index is lost: a file nobody knows. */
  ghost function Forgotten(s: Slot): Slot
  {
    if s.Box? then Orphan(Flatten(s.box)) else s
  }

  /** A restart right after this call finds every mailbox as the call left it. */
  ghost predicate SurvivesRestart(c: Config, slots: seq<Slot>, k: Call)
    requires c.p.Lawful()
    requires forall u :: 0 <= u < |slots| ==> SlotOk(slots[u])
    requires k.uid < |slots| && WellFormed(c, k.op)
  {
    var step := Step(c, slots[k.uid], k.op);
    || !Saves(slots[k.uid], k.op, step.1)
    || (if !k.op.f.saveOpen then SameIndex(slots[k.uid], step.0)
        else k.op.f.saveWrite || NoMail(After(c, slots, k)))
  }

  /** The index entry that describes a mailbox. */
  ghost function IndexOf(s: Slot): Stindex.Index
  {
    if s.Box? then Stindex.Index(Browse.BlockCounts(s.box), Ids(s.box)) else Stindex.NOTHING
  }

  ghost function IndexesOf(slots: seq<Slot>): (r: seq<Stindex.Index>)
    ensures |r| == |slots|
    ensures forall u :: 0 <= u < |slots| ==> r[u] == IndexOf(slots[u])
  {
    seq(|slots|, u requires 0 <= u < |slots| => IndexOf(slots[u]))
  }

  /** What the index file announces after one call: as before if nothing was saved or
      the file could not be opened, nothing if it was truncated and not written. */
  ghost function Announced(c: Config, idx: seq<Stindex.Index>, slots: seq<Slot>, k: Call): seq<Stindex.Index>
    requires c.p.Lawful()
    requires forall u :: 0 <= u < |slots| ==> SlotOk(slots[u])
    requires k.uid < |slots| && WellFormed(c, k.op)
  {
    if !Saves(slots[k.uid], k.op, Step(c, slots[k.uid], k.op).1) || !k.op.f.saveOpen then idx
    else if k.op.f.saveWrite then IndexesOf(After(c, slots, k))
    else seq(|slots|, _ => Stindex.NOTHING)
  }

  /** And after a run. */
  ghost function AnnouncedAfter(c: Config, idx: seq<Stindex.Index>, slots: seq<Slot>, calls: seq<Call>): seq<Stindex.Index>
    requires c.p.Lawful()
    requires forall u :: 0 <= u < |slots| ==> SlotOk(slots[u])
    requires Admissible(c, slots, calls)
    decreases |calls|
  {
    if calls == [] then idx
    else AnnouncedAfter(c, Announced(c, idx, slots, calls[0]), After(c, slots, calls[0]), calls[1..])
  }

  /** An operation that does not save leaves the index entry as it was. */
  lemma {:induction false} UnsavedSameIndex(c: Config, s: Slot, op: Op)
    requires c.p.Lawful() && SlotOk(s) && WellFormed(c, op) && !Saves(s, op, Step(c, s, op).1)
    ensures IndexOf(Step(c, s, op).0) == IndexOf(s)
  {
    hide EnvelopeId, SysSeal, WriteSeal, Find, Seal, Flatten, Ids, Browse.BlockCounts;
  }

  /** While every save works, the file announces the mailboxes there are, whatever
      else fails. */
  lemma {:induction false} WorkingSavesAnnounce(c: Config, slots: seq<Slot>, calls: seq<Call>)
    requires c.p.Lawful()
    requires forall u :: 0 <= u < |slots| ==> SlotOk(slots[u])
    requires Admissible(c, slots, calls)
    requires forall i :: 0 <= i < |calls| ==> calls[i].op.f.saveOpen && calls[i].op.f.saveWrite
    ensures AnnouncedAfter(c, IndexesOf(slots), slots, calls) == IndexesOf(Run(c, slots, calls).0)
    decreases |calls|
  {
    hide Step, SlotOk, Saves, IndexOf;
    if calls != [] {
      var k := calls[0];
      var next := After(c, slots, k);
      if !Saves(slots[k.uid], k.op, Step(c, slots[k.uid], k.op).1) {
        UnsavedSameIndex(c, slots[k.uid], k.op);
        assert IndexesOf(next) == IndexesOf(slots);
      }
      WorkingSavesAnnounce(c, next, calls[1..]);
    }
  }

  /** Operations that take nothing out of a mailbox. */
  predicate Keeps(op: Op)
  {
    op.Create? || op.Write?
  }

  lemma {:induction false} KeepsExtends(c: Config, s: Slot, op: Op)
    requires c.p.Lawful() && SlotOk(s) && WellFormed(c, op) && Keeps(op)
    requires s.Box? && |s.box| < 0xFFFF
    ensures var t := Step(c, s, op).0;
            t.Box? && s.box <= t.box && |t.box| <= |s.box| + 1
  {
    hide SlotOk;
  }

  /** Mail only accumulates: while a user only receives, every stored envelope
      keeps its bytes and its place, as long as the 16-bit count has room. */
  lemma {:induction false} ReceivingKeepsMail(c: Config, s: Slot, ops: seq<Op>)
    requires c.p.Lawful() && SlotOk(s) && OpsWellFormed(c, ops)
    requires forall i :: 0 <= i < |ops| ==> Keeps(ops[i])
    requires s.Box? && |s.box| + |ops| <= 0xFFFF
    ensures var t := RunOne(c, s, ops);
            t.Box? && s.box <= t.box && |t.box| <= |s.box| + |ops|
    decreases |ops|
  {
    hide Step, SlotOk;
    if ops != [] {
      StepKeepsSlotOk(c, s, ops[0]);
      KeepsExtends(c, s, ops[0]);
      ReceivingKeepsMail(c, Step(c, s, ops[0]).0, ops[1..]);
    }
  }
}
