/** Paging through a mailbox (api_message_browse): which envelopes a request
    gets, what is sent, and what repeated requests add up to. */
module Browse {
  import opened Bytes
  import opened Envelope
  import opened Mailbox
  import Stindex

  // ---- Which envelopes -----------------------------------------------------------

  function Weight(box: seq<Evp>): nat
  {
    |Flatten(box)|
  }

  /** The backward scan from position `at`, having added up `total`: it stops one
      past the first envelope that would exceed the limit, and never weighs
      envelope 0. */
  function Back(box: seq<Evp>, at: nat, total: nat): (start: nat)
    requires at < |box|
    ensures start <= at + 1 && start != 1
  {
    if at == 0 then 0
    else if total + |box[at]| > EVP_MAX then at + 1
    else Back(box, at - 1, total + |box[at]|)
  }

  /** How many envelopes from position i on fit the limit, after `total` octets. */
  function Fill(box: seq<Evp>, i: nat, total: nat): (k: nat)
    requires i <= |box|
    ensures i + k <= |box|
    decreases |box| - i
  {
    if i == |box| || total + |box[i]| > EVP_MAX then 0 else 1 + Fill(box, i + 1, total + |box[i]|)
  }

  /** Where a page starts, if there is one. */
  datatype Where = Missing | NothingMore | From(start: nat)

  ghost function StartOf(box: seq<Evp>, req: Option<u16>, newer: bool): (w: Where)
    requires req.None? && newer ==> box != []
    ensures w.From? ==> w.start <= |box|
    ensures w.From? && box != [] ==> w.start < |box|
  {
    match req
    case None =>
      if newer then BackInRange(box, |box| - 1); From(Back(box, |box| - 1, 0)) else From(0)
    case Some(id) =>
      var i := Find(box, id);
      if i == |box| then Missing
      else if newer then (if i + 1 == |box| then NothingMore else From(i + 1))
      else if i == 0 then NothingMore
      else BackInRange(box, i - 1); From(Back(box, i - 1, 0))
  }

  ghost function PageOf(box: seq<Evp>, start: nat): seq<Evp>
    requires start <= |box|
  {
    box[start..start + Fill(box, start, 0)]
  }

  // ---- The limit -------------------------------------------------------------------

  lemma {:induction false} WeightStep(box: seq<Evp>, i: nat, j: nat)
    requires i < j <= |box|
    ensures Weight(box[i..j]) == |box[i]| + Weight(box[i + 1..j])
    ensures Weight(box[i..j]) == Weight(box[i..j - 1]) + |box[j - 1]|
  {
    assert box[i..j][1..] == box[i + 1..j];
    assert box[i..j] == box[i..j - 1] + [box[j - 1]];
    FlattenConcat(box[i..j - 1], [box[j - 1]]);
    assert Flatten([box[j - 1]]) == box[j - 1] + Flatten([]) by { assert [box[j - 1]][1..] == []; }
  }

  /** The scan's result, by weight alone: either it stopped at the limit, and then
      the slice fits and one more would not, or it ran down to envelope 0, and
      then everything but envelope 0 fits. */
  lemma {:induction false} BackSpec(box: seq<Evp>, at: nat, from: nat)
    requires at <= from < |box|
    requires Weight(box[at + 1..from + 1]) <= EVP_MAX
    ensures var s := Back(box, at, Weight(box[at + 1..from + 1]));
            && (s > 0 ==> Weight(box[s..from + 1]) <= EVP_MAX < Weight(box[s - 1..from + 1]))
            && (s == 0 ==> Weight(box[1..from + 1]) <= EVP_MAX)
  {
    hide Weight;
    WeightStep(box, at, from + 1);
    if at > 0 && Weight(box[at..from + 1]) <= EVP_MAX { BackSpec(box, at - 1, from); }
  }

  lemma {:induction false} BackInRange(box: seq<Evp>, from: nat)
    requires from < |box|
    ensures var s := Back(box, from, 0);
            && s <= from
            && (s > 0 ==> Weight(box[s..from + 1]) <= EVP_MAX < Weight(box[s - 1..from + 1]))
            && (s == 0 ==> Weight(box[1..from + 1]) <= EVP_MAX)
  {
    assert box[from + 1..from + 1] == [];
    BackSpec(box, from, from);
    WeightStep(box, from, from + 1);
  }

  lemma {:induction false} FillSpec(box: seq<Evp>, start: nat, i: nat)
    requires start <= i <= |box| && Weight(box[start..i]) <= EVP_MAX
    ensures var end := i + Fill(box, i, Weight(box[start..i]));
            && Weight(box[start..end]) <= EVP_MAX
            && (end < |box| ==> Weight(box[start..end + 1]) > EVP_MAX)
    decreases |box| - i
  {
    if i < |box| {
      WeightStep(box, start, i + 1);
      if Weight(box[start..i + 1]) <= EVP_MAX { FillSpec(box, start, i + 1); }
    }
  }

  /** A page in range is never empty, never over the limit, and stops only where
      one more envelope would exceed it. */
  lemma {:induction false} PageSpec(box: seq<Evp>, start: nat)
    requires start < |box|
    ensures var k := Fill(box, start, 0);
            && k >= 1
            && Weight(box[start..start + k]) <= EVP_MAX
            && (start + k < |box| ==> Weight(box[start..start + k + 1]) > EVP_MAX)
  {
    assert box[start..start] == [];
    FillSpec(box, start, start);
  }

  lemma {:induction false} WeightMonotone(box: seq<Evp>, i: nat, j: nat, k: nat)
    requires i <= j <= k <= |box|
    ensures Weight(box[i..j]) <= Weight(box[i..k])
    decreases k - j
  {
    if j < k {
      WeightStep(box, i, j + 1);
      WeightMonotone(box, i, j + 1, k);
    }
  }

  // ---- Going back --------------------------------------------------------------------

  lemma {:induction false} WeightSuffix(box: seq<Evp>, h: nat, i: nat, j: nat)
    requires h <= i <= j <= |box|
    ensures Weight(box[i..j]) <= Weight(box[h..j])
    decreases i - h
  {
    if h < i {
      WeightStep(box, h, j);
      WeightSuffix(box, h + 1, i, j);
    }
  }

  /** Where the scan that goes back from position i starts the page, on sizes alone:
      at the oldest envelope if everything but that one fits, else as early as the
      limit allows. */
  lemma {:induction false} BackStart(box: seq<Evp>, i: nat)
    requires 0 < i <= |box|
    ensures var s := Back(box, i - 1, 0);
            && s < i && s != 1
            && (s == 0 <==> Weight(box[1..i]) <= EVP_MAX)
            && (s > 0 ==> Weight(box[s..i]) <= EVP_MAX < Weight(box[s - 1..i]))
  {
    hide Back, Weight;
    BackInRange(box, i - 1);
    var s := Back(box, i - 1, 0);
    if s > 0 { WeightSuffix(box, 1, s - 1, i); }
  }

  /** Going back from position i, the page shows everything since its start exactly
      when more than one page precedes i, not counting the oldest envelope, or when
      everything before i fits one page. */
  lemma {:induction false} BackReaches(box: seq<Evp>, i: nat)
    requires 0 < i <= |box|
    ensures var s := Back(box, i - 1, 0);
            s < i && (s + Fill(box, s, 0) >= i <==> Weight(box[1..i]) > EVP_MAX || Weight(box[..i]) <= EVP_MAX)
  {
    hide Fill, Back, Weight;
    BackStart(box, i);
    var s := Back(box, i - 1, 0);
    PageSpec(box, s);
    var k := Fill(box, s, 0);
    assert box[0..i] == box[..i];
    if s + k >= i { WeightMonotone(box, s, i, s + k); } else { WeightMonotone(box, s, s + k + 1, i); }
  }

  /** Asking for what came before an envelope: whether the page contains the envelope
      just before it, and that it starts as early as the limit allows. */
  lemma {:induction false} OlderPage(box: seq<Evp>, i: nat)
    requires BoxOk(box) && 0 < i < |box|
    ensures var w := StartOf(box, Some(EnvelopeId(box[i])), false);
      && w.From? && w.start < i
      && (w.start + |PageOf(box, w.start)| >= i <==> Weight(box[1..i]) > EVP_MAX || Weight(box[..i]) <= EVP_MAX)
      && (w.start == 0 <==> Weight(box[1..i]) <= EVP_MAX)
      && (w.start > 0 ==> Weight(box[w.start..i]) <= EVP_MAX < Weight(box[w.start - 1..i]))
  {
    hide Fill, Back, Weight, Find, BoxOk;
    FindIs(box, i);
    BackStart(box, i);
    BackReaches(box, i);
  }

  /** The same for the newest page, asked for without an ID. */
  lemma {:induction false} NewestPage(box: seq<Evp>)
    requires BoxOk(box)
    ensures var w := StartOf(box, None, true);
      && w.From? && w.start < |box|
      && (w.start + |PageOf(box, w.start)| == |box| <==> Weight(box[1..]) > EVP_MAX || Weight(box) <= EVP_MAX)
      && (w.start == 0 <==> Weight(box[1..]) <= EVP_MAX)
      && (w.start > 0 ==> Weight(box[w.start..]) <= EVP_MAX < Weight(box[w.start - 1..]))
  {
    hide Fill, Back, Weight, Find;
    var n := |box|;
    BackStart(box, n);
    BackReaches(box, n);
    var s := Back(box, n - 1, 0);
    assert box[..n] == box && box[1..n] == box[1..] && box[s..n] == box[s..] && (s > 0 ==> box[s - 1..n] == box[s - 1..]);
  }

  // ---- Going back, again and again -------------------------------------------------------

  /** The pages of a client that goes back from position i, each time from the first
      envelope of the page it was sent. */
  ghost function PagesBack(box: seq<Evp>, i: nat): (r: seq<seq<Evp>>)
    requires i <= |box|
  {
    if i == 0 then [] else
    BackStart(box, i);
    var s := Back(box, i - 1, 0);
    [PageOf(box, s)] + PagesBack(box, s)
  }

  /** Position k is on one of those pages. */
  ghost predicate ShownBack(box: seq<Evp>, i: nat, k: nat)
    requires i <= |box|
  {
    i > 0 &&
    (BackStart(box, i);
     var s := Back(box, i - 1, 0);
     s <= k < s + Fill(box, s, 0) || ShownBack(box, s, k))
  }

  /** The first position above s from where down to i everything fits one page. */
  ghost function Earliest(box: seq<Evp>, i: nat, s: nat): (r: nat)
    requires s <= i <= |box|
    ensures s <= r <= i && Weight(box[r..i]) <= EVP_MAX
    ensures forall k :: s <= k < r ==> Weight(box[k..i]) > EVP_MAX
    decreases i - s
  {
    if s == i then
      assert box[i..i] == [];
      i
    else if Weight(box[s..i]) <= EVP_MAX then s
    else Earliest(box, i, s + 1)
  }

  /** Packing pages greedily from position i down, without the oldest envelope: where
      the last of them ends. */
  ghost function Last(box: seq<Evp>, i: nat): (r: nat)
    requires i <= |box|
    ensures r <= i
  {
    if i <= 1 || Weight(box[1..i]) <= EVP_MAX then i else
    EarliestBelow(box, i);
    Last(box, Earliest(box, i, 1))
  }

  lemma {:induction false} EarliestBelow(box: seq<Evp>, i: nat)
    requires 1 < i <= |box|
    ensures Earliest(box, i, 1) < i
  {
    WeightStep(box, i - 1, i);
    assert box[i..i] == [];
  }

  /** The scan packs greedily. */
  lemma {:induction false} BackIsEarliest(box: seq<Evp>, i: nat)
    requires 0 < i <= |box| && Weight(box[1..i]) > EVP_MAX
    ensures i > 1 && Back(box, i - 1, 0) == Earliest(box, i, 1) < i
  {
    hide Back, Weight;
    NothingWeighs();
    assert box[i..i] == [];
    BackStart(box, i);
    EarliestBelow(box, i);
    var s, e := Back(box, i - 1, 0), Earliest(box, i, 1);
    if e < s { WeightSuffix(box, e, s - 1, i); }
  }

  lemma {:induction false} LastStep(box: seq<Evp>, i: nat)
    requires 0 < i <= |box|
    ensures var s := Back(box, i - 1, 0);
            && s < i
            && Last(box, i) == (if s == 0 then i else Last(box, s))
            && (s > 0 ==> s > 1 && Last(box, s) <= s)
  {
    hide Back, Weight;
    BackStart(box, i);
    if Weight(box[1..i]) > EVP_MAX { BackIsEarliest(box, i); }
  }

  lemma {:induction false} ShownBelow(box: seq<Evp>, i: nat, k: nat)
    requires k < i <= |box| && Weight(box[..Last(box, i)]) <= EVP_MAX
    ensures ShownBack(box, i, k)
    decreases i
  {
    hide Back, Weight, Last, Fill;
    LastStep(box, i);
    BackStart(box, i);
    BackReaches(box, i);
    var s := Back(box, i - 1, 0);
    if k < s { ShownBelow(box, s, k); }
  }

  /** The first page goes no further than the envelopes from the oldest on that fit. */
  lemma {:induction false} FirstPageEnds(box: seq<Evp>, j: nat)
    requires 0 < j <= |box| && Weight(box[..j]) > EVP_MAX
    ensures Fill(box, 0, 0) < j
  {
    hide Fill, Weight;
    PageSpec(box, 0);
    var k := Fill(box, 0, 0);
    assert box[0..j] == box[..j];
    if k >= j { WeightMonotone(box, 0, j, k); }
  }

  lemma {:induction false} NotShownBelow(box: seq<Evp>, i: nat, k: nat)
    requires 0 < i <= |box| && Fill(box, 0, 0) <= k < Last(box, i)
    ensures !ShownBack(box, i, k)
    decreases i
  {
    hide Back, Weight, Last, Fill;
    LastStep(box, i);
    var s := Back(box, i - 1, 0);
    if s > 0 { NotShownBelow(box, s, k); }
  }

  /** Repeated older requests from position i show every earlier envelope exactly
      when the oldest fits the last of the greedily packed pages too. */
  lemma {:induction false} ShownBackIff(box: seq<Evp>, i: nat)
    requires i <= |box|
    ensures (forall k :: 0 <= k < i ==> ShownBack(box, i, k)) <==> Weight(box[..Last(box, i)]) <= EVP_MAX
  {
    hide Weight, Fill, ShownBack;
    var j := Last(box, i);
    if Weight(box[..j]) <= EVP_MAX {
      forall k | 0 <= k < i ensures ShownBack(box, i, k) { ShownBelow(box, i, k); }
    } else {
      NothingWeighs();
      assert box[..0] == [];
      FirstPageEnds(box, j);
      NotShownBelow(box, i, Fill(box, 0, 0));
    }
  }

  ghost predicate Listed(pages: seq<seq<Evp>>, e: Evp)
  {
    exists page :: page in pages && e in page
  }

  lemma {:induction false} InSlice(box: seq<Evp>, i: nat, j: nat, k: nat)
    requires Distinct(Ids(box)) && i <= j <= |box| && k < |box|
    ensures box[k] in box[i..j] <==> i <= k < j
  {
    if i <= k < j { assert box[i..j][k - i] == box[k]; }
    if box[k] in box[i..j] {
      var m :| 0 <= m < j - i && box[i..j][m] == box[k];
      assert Ids(box)[i + m] == Ids(box)[k];
    }
  }

  lemma {:induction false} ListedCons(page: seq<Evp>, rest: seq<seq<Evp>>, e: Evp)
    ensures Listed([page] + rest, e) <==> e in page || Listed(rest, e)
  {
    assert ([page] + rest)[0] == page;
    if Listed(rest, e) {
      var p :| p in rest && e in p;
      assert p in [page] + rest;
    }
  }

  /** An envelope is on one of the pages exactly when its position is. */
  lemma {:induction false} ListedIsShown(box: seq<Evp>, i: nat, k: nat)
    requires Distinct(Ids(box)) && i <= |box| && k < |box|
    ensures Listed(PagesBack(box, i), box[k]) <==> ShownBack(box, i, k)
    decreases i
  {
    hide Back, Fill, Listed, Distinct, Ids;
    if i == 0 {
      assert !Listed([], box[k]) by { NoPages(box[k]); }
    } else {
      BackStart(box, i);
      var s := Back(box, i - 1, 0);
      InSlice(box, s, s + Fill(box, s, 0), k);
      ListedCons(PageOf(box, s), PagesBack(box, s), box[k]);
      ListedIsShown(box, s, k);
    }
  }

  lemma NoPages(e: Evp)
    ensures !Listed([], e)
  {
  }

  /** The ID a client computes from the first envelope of a page. */
  function FirstId(page: seq<Evp>): u16
    requires page != []
  {
    EnvelopeId(page[0])
  }

  /** What a client gathers by asking for older envelopes, each time with the ID it
      computes from the first envelope it was sent, until there is nothing older. */
  ghost function GatherOlder(box: seq<Evp>, id: u16): (r: seq<seq<Evp>>)
    requires BoxOk(box) && id in Ids(box)
    decreases Find(box, id)
  {
    var w := StartOf(box, Some(id), false);
    if !w.From? then [] else
    OlderPosition(box, id);
    [PageOf(box, w.start)] + GatherOlder(box, FirstId(PageOf(box, w.start)))
  }

  /** Where the next request stands after a page of older envelopes. */
  lemma {:induction false} OlderPosition(box: seq<Evp>, id: u16)
    requires BoxOk(box) && id in Ids(box) && StartOf(box, Some(id), false).From?
    ensures var i := Find(box, id); var s := StartOf(box, Some(id), false).start; var page := PageOf(box, s);
            && 0 < i < |box| && s == Back(box, i - 1, 0) < i
            && page != [] && FirstId(page) == EnvelopeId(box[s])
            && FirstId(page) in Ids(box) && Find(box, FirstId(page)) == s
  {
    hide BoxOk, Fill, Back, Weight, Find, EnvelopeId;
    var i := Find(box, id);
    BackStart(box, i);
    var s := Back(box, i - 1, 0);
    PageSpec(box, s);
    NamedIn(box, s);
    FindIs(box, s);
  }

  lemma {:induction false} GatherOlderIs(box: seq<Evp>, i: nat)
    requires BoxOk(box) && i < |box|
    ensures EnvelopeId(box[i]) in Ids(box) && GatherOlder(box, EnvelopeId(box[i])) == PagesBack(box, i)
    decreases i
  {
    hide BoxOk, Fill, Back, Weight, Find, PageOf, EnvelopeId;
    NamedIn(box, i);
    FindIs(box, i);
    if i > 0 {
      OlderPosition(box, EnvelopeId(box[i]));
      GatherOlderIs(box, Back(box, i - 1, 0));
    }
  }

  /** The pages list the i oldest envelopes. */
  ghost predicate ListsAll(pages: seq<seq<Evp>>, box: seq<Evp>, i: nat)
    requires i <= |box|
  {
    forall k :: 0 <= k < i ==> Listed(pages, box[k])
  }

  lemma {:induction false} PagesBackIff(box: seq<Evp>, i: nat)
    requires BoxOk(box) && i <= |box|
    ensures ListsAll(PagesBack(box, i), box, i) <==> Weight(box[..Last(box, i)]) <= EVP_MAX
  {
    hide Weight, ShownBack, PagesBack, Listed, Ids, Last;
    ShownBackIff(box, i);
    if k: nat :| k < i && !ShownBack(box, i, k) {
      ListedIsShown(box, i, k);
    } else {
      forall k | 0 <= k < i ensures Listed(PagesBack(box, i), box[k]) { ListedIsShown(box, i, k); }
    }
  }

  /** Backward paging: from a stored envelope, repeated requests list every earlier
      envelope if and only if, with the pages packed greedily from there down without
      the oldest envelope, that one still fits the last of them. */
  lemma {:induction false} GatherOlderIff(box: seq<Evp>, i: nat)
    requires BoxOk(box) && i < |box|
    ensures EnvelopeId(box[i]) in Ids(box)
    ensures ListsAll(GatherOlder(box, EnvelopeId(box[i])), box, i) <==> Weight(box[..Last(box, i)]) <= EVP_MAX
  {
    hide Weight, PagesBack, GatherOlder, ListsAll, Ids, BoxOk, Last, EnvelopeId;
    GatherOlderIs(box, i);
    PagesBackIff(box, i);
  }

  /** A whole session: the newest page, then older ones from its first envelope on. */
  ghost function GatherFromNewest(box: seq<Evp>): seq<seq<Evp>>
    requires BoxOk(box)
  {
    NewestPage(box);
    var s := StartOf(box, None, true).start;
    PageSpec(box, s);
    NamedIn(box, s);
    [PageOf(box, s)] + GatherOlder(box, FirstId(PageOf(box, s)))
  }

  lemma {:induction false} GatherFromNewestIs(box: seq<Evp>)
    requires BoxOk(box)
    ensures GatherFromNewest(box) == PagesBack(box, |box|)
  {
    hide GatherOlder, PagesBack, Weight, Fill, Back, Ids, EnvelopeId, Find;
    var n := |box|;
    BackStart(box, n);
    var s := Back(box, n - 1, 0);
    PageSpec(box, s);
    GatherOlderIs(box, s);
    PagesBackStep(box, n);
  }

  lemma {:induction false} PagesBackStep(box: seq<Evp>, i: nat)
    requires 0 < i <= |box|
    ensures var s := Back(box, i - 1, 0);
            s < i && PagesBack(box, i) == [PageOf(box, s)] + PagesBack(box, s)
  {
    BackStart(box, i);
  }

  /** Such a session lists the whole mailbox under the same condition. */
  lemma {:induction false} GatherFromNewestIff(box: seq<Evp>)
    requires BoxOk(box)
    ensures ListsAll(GatherFromNewest(box), box, |box|) <==> Weight(box[..Last(box, |box|)]) <= EVP_MAX
  {
    hide Weight, PagesBack, GatherFromNewest, ListsAll, BoxOk, Last;
    GatherFromNewestIs(box);
    PagesBackIff(box, |box|);
  }

  lemma {:induction false} SecondNotShown(box: seq<Evp>, i: nat)
    requires 2 <= i <= |box| && Weight(box[..2]) > EVP_MAX
    ensures !ShownBack(box, i, 1)
    decreases i
  {
    hide Back, Weight, Fill;
    FirstPageEnds(box, 2);
    BackStart(box, i);
    var s := Back(box, i - 1, 0);
    if s > 0 { SecondNotShown(box, s); }
  }

  /** What the unweighed oldest envelope costs: where the two oldest do not fit one
      page, the second is on no page, from wherever a client goes back. */
  lemma {:induction false} OlderPagesSkip(box: seq<Evp>)
    requires BoxOk(box) && |box| >= 2 && Weight(box[..2]) > EVP_MAX
    ensures !Listed(GatherFromNewest(box), box[1])
    ensures forall i :: 2 <= i < |box| ==>
      EnvelopeId(box[i]) in Ids(box) && !Listed(GatherOlder(box, EnvelopeId(box[i])), box[1])
  {
    hide Weight, ShownBack, PagesBack, GatherOlder, GatherFromNewest, Listed, EnvelopeId, Ids;
    GatherFromNewestIs(box);
    ListedIsShown(box, |box|, 1);
    SecondNotShown(box, |box|);
    forall i | 2 <= i < |box|
      ensures EnvelopeId(box[i]) in Ids(box) && !Listed(GatherOlder(box, EnvelopeId(box[i])), box[1])
    {
      GatherOlderIs(box, i);
      ListedIsShown(box, i, 1);
      SecondNotShown(box, i);
    }
  }

  lemma {:induction false} XorZeros(s: seq<byte>, n: nat)
    ensures XorAll(s + seq(n, _ => 0)) == XorAll(s)
  {
    var t := s + seq(n, _ => 0);
    if n == 0 {
      assert t == s;
    } else {
      XorZeros(s, n - 1);
      assert t[..|t| - 1] == s + seq(n - 1, _ => 0);
      XorZero(XorAll(s));
    }
  }

  lemma {:induction false} IdOfZeros(first: byte, n: nat)
    requires n >= 31
    ensures EnvelopeId([first] + seq(n, _ => 0)) == first
  {
    var e := [first] + seq(n, _ => 0);
    assert e[..16] == [first] + seq(15, _ => 0);
    assert e[16..32] == [] + seq(16, _ => 0);
    XorZeros([first], 15);
    XorZeros([], 16);
    assert [first][..0] == [];
    XorZero(first);
  }

  lemma {:induction false} TwoWeigh(a: Evp, b: Evp)
    ensures Weight([a, b]) == |a| + |b|
  {
    var box := [a, b];
    NothingWeighs();
    WeightStep(box, 0, 2);
    WeightStep(box, 1, 2);
    assert box[0..2] == box && box[2..2] == [];
  }

  /** Such a mailbox: one envelope of the smallest size, under ID 0 like a welcome,
      and a newer one of the largest. */
  lemma {:induction false} SkippingBox() returns (box: seq<Evp>)
    ensures BoxOk(box) && |box| == 2 && Whole(box) && Weight(box[..2]) > EVP_MAX
    ensures !Listed(GatherFromNewest(box), box[1])
  {
    hide Weight, GatherFromNewest, Listed, EnvelopeId;
    var small: Evp, large: Evp := [0] + seq(95, _ => 0), [1] + seq(EVP_MAX - 1, _ => 0);
    IdOfZeros(0, 95);
    IdOfZeros(1, EVP_MAX - 1);
    box := [small, large];
    assert Ids(box) == [0, 1];
    TwoWeigh(small, large);
    assert box[..2] == box;
    OlderPagesSkip(box);
  }

  // ---- Going forward -------------------------------------------------------------------

  /** The ID a client computes from the last envelope of a page. */
  function LastId(page: seq<Evp>): u16
    requires page != []
  {
    EnvelopeId(page[|page| - 1])
  }

  lemma {:induction false} NamedIn(box: seq<Evp>, i: nat)
    requires i < |box|
    ensures EnvelopeId(box[i]) in Ids(box)
  {
    assert Ids(box)[i] == EnvelopeId(box[i]);
  }

  /** Where the next request stands after a page from position start. */
  lemma {:induction false} NextPosition(box: seq<Evp>, start: nat)
    requires BoxOk(box) && start < |box|
    ensures var page := PageOf(box, start); var last := start + |page| - 1;
            && page != [] && last < |box| && page == box[start..last + 1] && LastId(page) == EnvelopeId(box[last])
            && LastId(page) in Ids(box) && Find(box, LastId(page)) == last
  {
    hide BoxOk, Fill, Weight, Find, EnvelopeId;
    PageSpec(box, start);
    var last := start + Fill(box, start, 0) - 1;
    NamedIn(box, last);
    FindIs(box, last);
  }

  /** What a client gathers by asking for newer envelopes, each time with the ID it
      computes from the last envelope it was sent, until there is nothing newer. */
  ghost function Gather(box: seq<Evp>, id: u16): (r: seq<seq<Evp>>)
    requires BoxOk(box) && id in Ids(box)
    decreases |box| - Find(box, id)
  {
    var w := StartOf(box, Some(id), true);
    if !w.From? then [] else
    NextPosition(box, w.start);
    var page := PageOf(box, w.start);
    [page] + Gather(box, LastId(page))
  }

  function Join(pages: seq<seq<Evp>>): seq<Evp>
  {
    if pages == [] then [] else pages[0] + Join(pages[1..])
  }

  lemma {:induction false} GatherStep(box: seq<Evp>, i: nat)
    requires BoxOk(box) && i < |box| && EnvelopeId(box[i]) in Ids(box)
    ensures i + 1 == |box| ==> Gather(box, EnvelopeId(box[i])) == []
    ensures i + 1 < |box| ==>
      var page := PageOf(box, i + 1); var last := i + |page|;
      && page != [] && last < |box| && page == box[i + 1..last + 1] && EnvelopeId(box[last]) in Ids(box)
      && Gather(box, EnvelopeId(box[i])) == [page] + Gather(box, EnvelopeId(box[last]))
  {
    hide Fill, Weight, Find, BoxOk, PageOf, LastId, EnvelopeId, Ids;
    FindIs(box, i);
    if i + 1 < |box| { NextPosition(box, i + 1); }
  }

  /** Forward paging is complete: from any stored envelope it ends, and its pages,
      none of them empty, are every later envelope once and in order. */
  lemma {:induction false} GatherIsComplete(box: seq<Evp>, i: nat)
    requires BoxOk(box) && i < |box|
    ensures EnvelopeId(box[i]) in Ids(box)
    ensures Join(Gather(box, EnvelopeId(box[i]))) == box[i + 1..]
    ensures forall page :: page in Gather(box, EnvelopeId(box[i])) ==> page != []
    decreases |box| - i
  {
    hide Gather, PageOf, BoxOk, EnvelopeId, Ids, Weight, Fill, Find;
    NamedIn(box, i);
    GatherStep(box, i);
    if i + 1 < |box| {
      var page := PageOf(box, i + 1);
      GatherIsComplete(box, i + |page|);
      assert box[i + 1..] == page + box[i + |page| + 1..];
    }
  }

  // ---- What is sent -----------------------------------------------------------------------

  function BlockCounts(box: seq<Evp>): (bc: seq<u16>)
    ensures |bc| == |box|
    ensures forall i :: 0 <= i < |box| ==> bc[i] == BlockCount(|box[i]|)
  {
    seq(|box|, i requires 0 <= i < |box| => BlockCount(|box[i]|))
  }

  /** Every envelope is a whole number of blocks. */
  ghost predicate Whole(box: seq<Evp>)
  {
    forall i :: 0 <= i < |box| ==> |box[i]| == Size(BlockCount(|box[i]|))
  }

  /** Number of envelopes and of blocks (both as the wire's integers hold them),
      then the page: its length, its block counts, its octets. */
  function Response(box: seq<Evp>, start: nat): seq<byte>
    requires start <= |box|
  {
    var page := box[start..start + Fill(box, start, 0)];
    ToLe(|box| % 0x1_0000, 2) + ToLe(Weight(box) / BLOCK % 0x1_0000_0000, 4)
    + ToLe(|page| % 0x1_0000, 2) + Stindex.Words(BlockCounts(page)) + Flatten(page)
  }

  /** The reader's side: cut the octets by the listed block counts. */
  function ReadPage(out: seq<byte>): Option<seq<Evp>>
  {
    if |out| < 8 then None else
    var k := FromLe(out[6..8]);
    if |out| < 8 + 2 * k then None else
    var bc := Stindex.ReadWords(out[8..], k);
    var body := out[8 + 2 * k..];
    if |body| != Total(bc) then None else Some(Cut(body, bc))
  }

  /** A page reads back as exactly the envelopes it was made from, in at most
      EVP_MAX octets, with the mailbox totals in front. */
  lemma {:induction false} ResponseReadsBack(box: seq<Evp>, start: nat)
    requires Whole(box) && start <= |box| < 0x1_0000
    ensures var out := Response(box, start);
            && ReadPage(out) == Some(PageOf(box, start))
            && FromLe(out[..2]) == |box|
            && FromLe(out[2..6]) == Weight(box) / BLOCK % 0x1_0000_0000
            && |out| <= 8 + 2 * |PageOf(box, start)| + EVP_MAX
            && var page := PageOf(box, start);
               && FromLe(out[6..8]) == |page|
               && (forall k :: 0 <= k < |page| ==> FromLe(out[8 + 2 * k..8 + 2 * k + 2]) == |page[k]| / 32 - 3)
               && out[8 + 2 * |page|..] == Flatten(page)
  {
    hide Flatten, Stindex.Words, ToLe, FromLe, Fill, Total, Stindex.ReadWords, Cut;
    var page := PageOf(box, start);
    var bc := BlockCounts(page);
    var out := Response(box, start);
    var rest := Stindex.Words(bc) + Flatten(page);
    assert Whole(page);
    Ranges();
    LeRoundTrip(|box|, 2);
    LeRoundTrip(Weight(box) / BLOCK % 0x1_0000_0000, 4);
    LeRoundTrip(|page|, 2);
    assert out[..2] == ToLe(|box|, 2);
    assert out[2..6] == ToLe(Weight(box) / BLOCK % 0x1_0000_0000, 4);
    assert out[6..8] == ToLe(|page|, 2);
    assert out[8..] == rest && out[8 + 2 * |page|..] == Flatten(page);
    Stindex.WordsRoundTrip(bc, Flatten(page));
    assert out[8..8 + 2 * |bc|] == Stindex.Words(bc);
    Stindex.WordsIn(out, 8, bc);
    CutFlatten(page, bc);
    if start < |box| { PageSpec(box, start); } else { assert page == []; NothingWeighs(); }
  }

  lemma NothingWeighs()
    ensures Flatten([]) == [] && Weight([]) == 0
  {
  }

  // ---- The loops -----------------------------------------------------------------------------

  /** The block-count column describes this list. */
  ghost predicate SizesOf(box: seq<Evp>, bc: seq<u16>)
  {
    |box| == |bc| && forall i :: 0 <= i < |bc| ==> |box[i]| == Size(bc[i])
  }

  lemma {:induction false} SizesGiveBlocks(box: seq<Evp>, bc: seq<u16>)
    requires SizesOf(box, bc)
    ensures Whole(box) && BlockCounts(box) == bc
  {
    assert forall i :: 0 <= i < |bc| ==> BlockCount(Size(bc[i])) == bc[i];
  }

  /** Search from the newest envelope down. */
  method FindFromEnd(id: seq<u16>, reqId: u16) returns (startNum: int)
    ensures startNum == -1 ==> reqId !in id
    ensures startNum != -1 ==> 0 <= startNum < |id| && id[startNum] == reqId
  {
    startNum := -1;
    var i := |id| - 1;
    while i >= 0
      invariant -1 <= i < |id|
      invariant reqId !in id[i + 1..]
    {
      if reqId == id[i] { startNum := i; return; }
      assert id[i..] == [id[i]] + id[i + 1..];
      i := i - 1;
    }
    assert id[0..] == id;
  }

  method BackScan(bc: seq<u16>, from: nat, ghost box: seq<Evp>) returns (startNum: nat)
    requires SizesOf(box, bc) && from < |bc|
    ensures startNum == Back(box, from, 0)
  {
    startNum := from;
    var lenTotal: nat := 0;
    while startNum > 0
      invariant startNum <= from
      invariant Back(box, startNum, lenTotal) == Back(box, from, 0)
    {
      lenTotal := lenTotal + (bc[startNum] + MIN_BLOCKS) * BLOCK;
      if lenTotal > EVP_MAX {
        startNum := startNum + 1;
        return;
      }
      startNum := startNum - 1;
    }
  }

  /** Sum of the envelope sizes a column stands for. */
  method SumSizes(bc: seq<u16>) returns (len: nat)
    ensures len == Total(bc)
  {
    len := 0;
    for i := 0 to |bc|
      invariant len == Total(bc[..i])
    {
      TotalPrefix(bc, i);
      len := len + (bc[i] + MIN_BLOCKS) * BLOCK;
    }
    assert bc[..|bc|] == bc;
  }

  method FillPage(bc: seq<u16>, start: nat, ghost box: seq<Evp>) returns (evpCount: nat, evpBytes: nat)
    requires SizesOf(box, bc) && start <= |bc|
    ensures evpCount == Fill(box, start, 0)
    ensures evpBytes == Total(bc[start..start + evpCount])
  {
    hide Total, Fill;
    evpCount, evpBytes := 0, 0;
    ghost var cols := bc[start..];
    assert cols[..0] == [] && Total([]) == 0 by { CutNothing(); }
    var i := start;
    while i < |bc|
      invariant start <= i <= |bc| && i == start + evpCount
      invariant evpCount + Fill(box, i, evpBytes) == Fill(box, start, 0)
      invariant evpBytes == Total(cols[..evpCount])
    {
      TotalPrefix(cols, evpCount);
      FillStep(box, i, evpBytes);
      if evpBytes + (bc[i] + MIN_BLOCKS) * BLOCK > EVP_MAX { break; }
      evpCount := evpCount + 1;
      evpBytes := evpBytes + (bc[i] + MIN_BLOCKS) * BLOCK;
      i := i + 1;
    }
    if i == |bc| { FillEnds(box, evpBytes); }
    assert bc[start..start + evpCount] == cols[..evpCount];
  }

  lemma {:induction false} FillStep(box: seq<Evp>, i: nat, total: nat)
    requires i < |box|
    ensures Fill(box, i, total) == if total + |box[i]| > EVP_MAX then 0 else 1 + Fill(box, i + 1, total + |box[i]|)
  {
  }

  lemma FillEnds(box: seq<Evp>, total: nat)
    ensures Fill(box, |box|, total) == 0
  {
  }

  lemma AddWraps(a: nat, b: nat)
    ensures (a % 0x1_0000_0000 + b) % 0x1_0000_0000 == (a + b) % 0x1_0000_0000
  {
  }

  /** browse_infoBytes; the block total is a 32-bit sum. */
  method InfoBytes(bc: seq<u16>, ghost box: seq<Evp>) returns (out: seq<byte>)
    requires SizesOf(box, bc) && |bc| < 0x1_0000
    ensures out == ToLe(|box|, 2) + ToLe(Weight(box) / BLOCK % 0x1_0000_0000, 4)
  {
    hide Total, Flatten, ToLe;
    assert bc[..0] == [] && Total([]) == 0 by { CutNothing(); }
    var blocks: nat := 0;
    ghost var exact: nat := 0;
    for i := 0 to |bc|
      invariant Total(bc[..i]) == exact * BLOCK && blocks == exact % 0x1_0000_0000
    {
      TotalPrefix(bc, i);
      AddWraps(exact, bc[i] + MIN_BLOCKS);
      blocks := (blocks + bc[i] + MIN_BLOCKS) % 0x1_0000_0000;
      exact := exact + bc[i] + MIN_BLOCKS;
    }
    assert bc[..|bc|] == bc;
    CutFlatten(box, bc);
    out := ToLe(|bc|, 2) + ToLe(blocks, 4);
  }

  /** The file octets of a page are its envelopes. */
  lemma {:induction false} PageOctets(box: seq<Evp>, bc: seq<u16>, i: nat, j: nat)
    requires SizesOf(box, bc) && i <= j <= |box|
    ensures var at := Total(bc[..i]); var end := at + Total(bc[i..j]);
            end <= |Flatten(box)| && Flatten(box)[at..end] == Flatten(box[i..j])
  {
    hide Flatten, Total, Cut;
    CutFlatten(box[..i], bc[..i]);
    CutFlatten(box[i..j], bc[i..j]);
    assert box == box[..i] + (box[i..j] + box[j..]);
    FlattenConcat(box[..i], box[i..j] + box[j..]);
    FlattenConcat(box[i..j], box[j..]);
  }

  lemma {:induction false} WhereFound(box: seq<Evp>, reqId: u16, at: int)
    requires box == [] || BoxOk(box)
    requires at == -1 ==> reqId !in Ids(box)
    requires at != -1 ==> 0 <= at < |box| && Ids(box)[at] == reqId
    ensures Find(box, reqId) == if at == -1 then |box| else at
  {
    assert forall k :: 0 <= k < |box| ==> Ids(box)[k] == EnvelopeId(box[k]);
    if at != -1 { FindIs(box, at); }
  }

  /** The first half of api_message_browse: where the page starts. */
  method SelectStart(bc: seq<u16>, id: seq<u16>, req: Option<u16>, newer: bool, ghost box: seq<Evp>) returns (w: Where)
    requires SizesOf(box, bc) && id == Ids(box) && (box == [] || BoxOk(box))
    requires req.None? && newer ==> box != []
    ensures w == StartOf(box, req, newer)
  {
    hide SizesOf, Back, Find, Ids, BoxOk;
    LengthsAgree(box, bc);
    var startNum := 0;
    if req.Some? {
      startNum := FindFromEnd(id, req.value);
      WhereFound(box, req.value, startNum);
      if startNum == -1 { return Missing; }
      if newer {
        startNum := startNum + 1;
        if startNum == |bc| { return NothingMore; }
      } else {
        if startNum == 0 { return NothingMore; }
        startNum := BackScan(bc, startNum - 1, box);
      }
    } else if newer {
      startNum := BackScan(bc, |bc| - 1, box);
    }
    w := From(startNum);
  }

  lemma LengthsAgree(box: seq<Evp>, bc: seq<u16>)
    requires SizesOf(box, bc)
    ensures |box| == |bc|
  {
  }

  /** The second half: read position, page, and the octets in between. */
  method BuildResponse(bc: seq<u16>, file: seq<byte>, startNum: nat, ghost box: seq<Evp>) returns (out: seq<byte>)
    requires SizesOf(box, bc) && startNum <= |bc| < 0x1_0000
    requires Flatten(box) <= file
    ensures out == Response(box, startNum)
  {
    hide Flatten, SizesOf, Total, Fill, Weight, Stindex.Words, ToLe;
    LengthsAgree(box, bc);
    SizesGiveBlocks(box, bc);
    var readPos := SumSizes(bc[..startNum]);
    var evpCount, evpBytes := FillPage(bc, startNum, box);
    var info := InfoBytes(bc, box);
    PageOctets(box, bc, startNum, startNum + evpCount);
    ghost var page := box[startNum..startNum + evpCount];
    var octets := file[readPos..readPos + evpBytes];
    assert octets == Flatten(box)[readPos..readPos + evpBytes] == Flatten(page);
    var cols := bc[startNum..startNum + evpCount];
    assert cols == BlockCounts(page);
    out := info + ToLe(evpCount, 2) + Stindex.Words(cols) + octets;
  }

  // ---- The whole request -----------------------------------------------------------------------

  datatype BrowseReply = BadRequest | NoSuchId | UpToDate | Failed | Sent(out: seq<byte>)

  ghost function BoxOf(s: Slot): seq<Evp>
  {
    if s.Box? then s.box else []
  }

  ghost function BrowseResult(s: Slot, req: Option<u16>, newer: bool, f: Faults): BrowseReply
    requires req.None? && newer ==> s.Box? && s.box != []
  {
    match StartOf(BoxOf(s), req, newer)
    case Missing => NoSuchId
    case NothingMore => UpToDate
    case From(start) => if s.NoFile? || !f.open || !f.read then Failed else Sent(Response(BoxOf(s), start))
  }

  lemma BoxBound(box: seq<Evp>)
    requires BoxOk(box)
    ensures 0 < |box| < 0x1_0000
  {
  }

  /** Which answer a request gets: no such ID, nothing more on that side, a failure to
      read, or the page that starts where the request says - the oldest envelope if it
      names none and asks for older mail. */
  lemma {:induction false} BrowseSpec(s: Slot, req: Option<u16>, newer: bool, f: Faults)
    requires SlotOk(s) && Whole(BoxOf(s)) && (req.None? && newer ==> BoxOf(s) != [])
    ensures var box, r := BoxOf(s), BrowseResult(s, req, newer, f);
      && (r.NoSuchId? <==> req.Some? && req.value !in Ids(box))
      && (r.UpToDate? <==> req.Some? && box != [] && req.value == EnvelopeId(if newer then box[|box| - 1] else box[0]))
      && (r.Failed? <==> !r.NoSuchId? && !r.UpToDate? && (s.NoFile? || !f.open || !f.read))
      && (r.NoSuchId? || r.UpToDate? || r.Failed? || r.Sent?)
      && (r.Sent? && req.None? && !newer ==> ReadPage(r.out) == Some(PageOf(box, 0)))
      && (r.Sent? && req.None? && newer ==> Back(box, |box| - 1, 0) < |box| && ReadPage(r.out) == Some(PageOf(box, Back(box, |box| - 1, 0))))
  {
    hide StartOf, Back, Response, ReadPage, PageOf, Whole, EnvelopeId, Distinct, Ids;
    var box := BoxOf(s);
    StartOfSpec(box, req, newer);
    if req.None? && !newer { ResponseReadsBack(box, 0); }
    if req.None? && newer { ResponseReadsBack(box, Back(box, |box| - 1, 0)); }
  }

  /** Where a page starts, if there is one. */
  lemma {:induction false} StartOfSpec(box: seq<Evp>, req: Option<u16>, newer: bool)
    requires (BoxOk(box) || box == []) && (req.None? && newer ==> box != [])
    ensures var w := StartOf(box, req, newer);
      && (w.Missing? <==> req.Some? && req.value !in Ids(box))
      && (w.NothingMore? <==> req.Some? && box != [] && req.value == EnvelopeId(if newer then box[|box| - 1] else box[0]))
      && (req.None? ==> w.From?)
      && (req.None? && !newer ==> w.start == 0)
      && (req.None? && newer ==> w.start == Back(box, |box| - 1, 0) < |box|)
  {
    hide Back, EnvelopeId, Distinct;
    if req.None? {
      if newer { BackStart(box, |box|); }
    } else if box != [] {
      FindIs(box, 0);
      FindIs(box, |box| - 1);
      var i := Find(box, req.value);
      if i < |box| { assert Ids(box)[i] == req.value; }
      assert forall j :: 0 <= j < |box| ==> Ids(box)[j] == EnvelopeId(box[j]);
    }
  }

  /** Asked for everything newer than a stored envelope, a working storage sends a
      page that reads back as the step the client's gathering takes. */
  lemma {:induction false} NewerReplyReadsBack(box: seq<Evp>, i: nat, f: Faults)
    requires BoxOk(box) && Whole(box) && i < |box| && f.open && f.read
    ensures var r := BrowseResult(Box(box), Some(EnvelopeId(box[i])), true, f);
            && (i + 1 == |box| ==> r == UpToDate)
            && (i + 1 < |box| ==> r.Sent? && ReadPage(r.out) == Some(PageOf(box, i + 1)))
  {
    hide Back, Fill, Weight, Response, ReadPage, PageOf, Whole, BoxOk, EnvelopeId, ToLe, FromLe, Ids, Flatten;
    BoxBound(box);
    FindIs(box, i);
    if i + 1 < |box| { ResponseReadsBack(box, i + 1); }
  }

  /** The same for what came before. */
  lemma {:induction false} OlderReplyReadsBack(box: seq<Evp>, i: nat, f: Faults)
    requires BoxOk(box) && Whole(box) && i < |box| && f.open && f.read
    ensures var r := BrowseResult(Box(box), Some(EnvelopeId(box[i])), false, f);
            && (i == 0 ==> r == UpToDate)
            && (i > 0 ==> Back(box, i - 1, 0) < i && r.Sent? && ReadPage(r.out) == Some(PageOf(box, Back(box, i - 1, 0))))
  {
    hide Back, Fill, Weight, Response, ReadPage, PageOf, Whole, BoxOk, EnvelopeId, ToLe, FromLe, Ids, Flatten;
    BoxBound(box);
    FindIs(box, i);
    if i > 0 {
      BackStart(box, i);
      ResponseReadsBack(box, Back(box, i - 1, 0));
    }
  }
}
