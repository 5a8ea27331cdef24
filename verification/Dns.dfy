/** Domain names: the check of Common/ValidDomain.c, the question and the name
    reader of enquiry/DNS_protocol.c (sections 3.1 and 4.1.4 of RFC 1035). */
module Dns {
  import opened Bytes

  const DOT := 46
  const HYPHEN := 45
  const MAX_NAME := 127
  const MAX_LABEL := 63

  // ---- Labels ---------------------------------------------------------------------

  /** memchr: the first dot at or after position `from`, or |d|. */
  function NextDot(d: seq<byte>, from: nat): (k: nat)
    requires from <= |d|
    ensures from <= k <= |d| && (k < |d| ==> d[k] == DOT)
    ensures forall j :: from <= j < k ==> d[j] != DOT
    decreases |d| - from
  {
    if from == |d| || d[from] == DOT then from else NextDot(d, from + 1)
  }

  /** The labels of the domain d from position `from` on. */
  function Split(d: seq<byte>, from: nat): (labels: seq<seq<byte>>)
    requires from <= |d|
    ensures labels != []
    decreases |d| - from
  {
    var k := NextDot(d, from);
    if k == |d| then [d[from..]] else [d[from..k]] + Split(d, k + 1)
  }

  function Join(labels: seq<seq<byte>>): seq<byte>
  {
    if labels == [] then []
    else if |labels| == 1 then labels[0]
    else labels[0] + [DOT] + Join(labels[1..])
  }

  lemma {:induction false} JoinSplit(d: seq<byte>, from: nat)
    requires from <= |d|
    ensures Join(Split(d, from)) == d[from..]
    decreases |d| - from
  {
    hide Join, Split, NextDot;
    SplitStep(d, from);
    var k := NextDot(d, from);
    if k < |d| {
      JoinSplit(d, k + 1);
      JoinCons(d[from..k], Split(d, k + 1));
      assert d[from..] == d[from..k] + [DOT] + d[k + 1..];
    } else {
      JoinCons(d[from..], []);
      assert [d[from..]] + [] == [d[from..]];
    }
  }

  lemma {:induction false} SplitStep(d: seq<byte>, from: nat)
    requires from <= |d|
    ensures var k := NextDot(d, from); Split(d, from) == if k == |d| then [d[from..]] else [d[from..k]] + Split(d, k + 1)
  {
  }

  lemma {:induction false} JoinCons(first: seq<byte>, rest: seq<seq<byte>>)
    ensures Join([first] + rest) == if rest == [] then first else first + [DOT] + Join(rest)
  {
    assert ([first] + rest)[1..] == rest;
  }

  // ---- Valid domains -----------------------------------------------------------------

  predicate IsLower(c: byte) { 97 <= c <= 122 }

  predicate IsAlnum(c: byte) { IsLower(c) || 48 <= c <= 57 }

  /** Letters, digits and hyphens, with no hyphen first or last. */
  predicate IsLabel(l: seq<byte>)
  {
    && 1 <= |l| <= MAX_LABEL && IsAlnum(l[0]) && IsAlnum(l[|l| - 1])
    && forall k :: 0 <= k < |l| ==> IsAlnum(l[k]) || l[k] == HYPHEN
  }

  const EXAMPLE: seq<byte> := [101, 120, 97, 109, 112, 108, 101, 46]
  const COM: seq<byte> := [99, 111, 109]
  const NET: seq<byte> := [110, 101, 116]
  const ORG: seq<byte> := [111, 114, 103]

  predicate Reserved(d: seq<byte>)
  {
    d == EXAMPLE + COM || d == EXAMPLE + NET || d == EXAMPLE + ORG
  }

  /** The characters of labels, and the three names reserved. */
  lemma {:induction false} LabelCharacters(c: byte)
    ensures IsLower(c) <==> 'a' <= c as char <= 'z'
    ensures IsAlnum(c) <==> 'a' <= c as char <= 'z' || '0' <= c as char <= '9'
    ensures c == HYPHEN <==> c as char == '-'
  {
  }

  function Text(d: seq<byte>): (s: string)
    ensures |s| == |d| && forall k :: 0 <= k < |d| ==> s[k] == d[k] as char
  {
    seq(|d|, k requires 0 <= k < |d| => d[k] as char)
  }

  lemma {:induction false} ReservedNames(d: seq<byte>)
    ensures Reserved(d) <==> Text(d) == "example.com" || Text(d) == "example.net" || Text(d) == "example.org"
  {
    hide Text;
    assert Text(EXAMPLE + COM) == "example.com" && Text(EXAMPLE + NET) == "example.net" && Text(EXAMPLE + ORG) == "example.org";
    TextInjective(d, EXAMPLE + COM);
    TextInjective(d, EXAMPLE + NET);
    TextInjective(d, EXAMPLE + ORG);
  }

  lemma {:induction false} TextInjective(a: seq<byte>, b: seq<byte>)
    ensures Text(a) == Text(b) <==> a == b
  {
    if Text(a) == Text(b) {
      forall k | 0 <= k < |a| ensures a[k] == b[k] { assert Text(a)[k] == Text(b)[k]; }
    }
  }

  /** What isValidDomain accepts: two or more labels, the last of two or more
      octets with a letter among them. */
  ghost predicate ValidDomain(d: seq<byte>)
  {
    var labels := Split(d, 0);
    var last := labels[|labels| - 1];
    && 4 <= |d| <= MAX_NAME && !Reserved(d)
    && |labels| >= 2 && AllLabels(labels)
    && |last| >= 2 && exists k :: 0 <= k < |last| && IsLower(last[k])
  }

  /** The labels from position `from` on are all well formed. */
  predicate LabelsOk(d: seq<byte>, from: nat)
    requires from <= |d|
    decreases |d| - from
  {
    var k := NextDot(d, from);
    IsLabel(d[from..k]) && (k == |d| || LabelsOk(d, k + 1))
  }

  ghost predicate AllLabels(labels: seq<seq<byte>>)
  {
    forall k :: 0 <= k < |labels| ==> IsLabel(labels[k])
  }

  lemma {:induction false} AllLabelsCons(l: seq<byte>, rest: seq<seq<byte>>)
    ensures AllLabels([l] + rest) <==> IsLabel(l) && AllLabels(rest)
  {
    var labels := [l] + rest;
    assert forall k :: 0 <= k < |rest| ==> rest[k] == labels[k + 1];
    assert forall k :: 1 <= k < |labels| ==> labels[k] == rest[k - 1];
    assert labels[0] == l;
  }

  lemma {:induction false} LabelsOkIs(d: seq<byte>, from: nat)
    requires from <= |d|
    ensures LabelsOk(d, from) <==> AllLabels(Split(d, from))
    decreases |d| - from
  {
    hide IsLabel, AllLabels;
    var k := NextDot(d, from);
    if k < |d| {
      LabelsOkIs(d, k + 1);
      AllLabelsCons(d[from..k], Split(d, k + 1));
    } else {
      assert d[from..k] == d[from..];
      assert [d[from..]] == [d[from..]] + [];
      AllLabelsCons(d[from..k], []);
      assert AllLabels([]) by { NoLabels(); }
    }
  }

  lemma NoLabels()
    ensures AllLabels([])
  {
  }

  /** The same character by character, from position `from` on: only lower-case letters,
      digits, hyphens and dots, a letter or digit first and last and on both sides of
      every dot, and no more than 63 octets without a dot. */
  ghost predicate WellSpelled(d: seq<byte>, from: nat)
  {
    && from < |d| && IsAlnum(d[from]) && IsAlnum(d[|d| - 1])
    && (forall i :: from <= i < |d| ==> IsAlnum(d[i]) || d[i] == HYPHEN || d[i] == DOT)
    && (forall i :: from <= i < |d| && d[i] == DOT ==> from < i < |d| - 1 && IsAlnum(d[i - 1]) && IsAlnum(d[i + 1]))
    && (forall i, j :: from <= i <= j <= |d| && DOT !in d[i..j] ==> j - i <= 63)
  }

  lemma {:induction false} LabelOfSpelled(d: seq<byte>, from: nat)
    requires WellSpelled(d, from)
    ensures var k := NextDot(d, from); IsLabel(d[from..k]) && (k < |d| ==> WellSpelled(d, k + 1))
  {
    var k := NextDot(d, from);
    var l := d[from..k];
    assert k > from;
    assert l[0] == d[from] && l[|l| - 1] == d[k - 1];
    assert DOT !in l;
    assert forall i :: 0 <= i < |l| ==> l[i] == d[from + i];
  }

  lemma {:induction false} SpelledOfLabel(d: seq<byte>, from: nat)
    requires from <= |d|
    requires var k := NextDot(d, from); IsLabel(d[from..k]) && (k < |d| ==> WellSpelled(d, k + 1))
    ensures WellSpelled(d, from)
  {
    var k := NextDot(d, from);
    var l := d[from..k];
    assert l[0] == d[from] && l[|l| - 1] == d[k - 1];
    forall i | from <= i < |d| ensures IsAlnum(d[i]) || d[i] == HYPHEN || d[i] == DOT { if i < k { assert d[i] == l[i - from]; } }
    forall i, j | from <= i <= j <= |d| && DOT !in d[i..j] ensures j - i <= 63 {
      assert forall m :: i <= m < j ==> d[i..j][m - i] == d[m];
    }
  }

  lemma {:induction false} LabelsAreSpelled(d: seq<byte>, from: nat)
    requires from <= |d|
    ensures LabelsOk(d, from) <==> WellSpelled(d, from)
    decreases |d| - from
  {
    hide IsLabel, WellSpelled;
    var k := NextDot(d, from);
    if k < |d| { LabelsAreSpelled(d, k + 1); }
    if WellSpelled(d, from) { LabelOfSpelled(d, from); }
    if LabelsOk(d, from) { SpelledOfLabel(d, from); }
  }

  /** Position k holds the last dot. */
  ghost predicate LastDotAt(d: seq<byte>, k: nat)
  {
    k < |d| && d[k] == DOT && forall j :: k < j < |d| ==> d[j] != DOT
  }

  /** The accepted domains without speaking of labels: the last dot has at least two
      octets after it, one of them a letter. */
  lemma {:induction false} ValidDomainIs(d: seq<byte>)
    ensures ValidDomain(d) <==>
      && 4 <= |d| <= 127 && !Reserved(d) && WellSpelled(d, 0)
      && exists k: nat :: k < |d| - 2 && LastDotAt(d, k) && exists i :: k < i < |d| && IsLower(d[i])
  {
    hide WellSpelled, AllLabels, LabelsOk, Split, LastDotAt;
    LabelsOkIs(d, 0);
    LabelsAreSpelled(d, 0);
    var at := AfterLastDot(d, |d|);
    LastDotIs(d, at);
    LetterAfter(d, at);
  }

  /** The last label starts after the last dot, or is the whole domain. */
  lemma {:induction false} LastDotIs(d: seq<byte>, at: nat)
    requires at == AfterLastDot(d, |d|)
    ensures Split(d, 0)[|Split(d, 0)| - 1] == d[at..] && (|Split(d, 0)| >= 2 <==> at > 0)
    ensures at > 0 ==> LastDotAt(d, at - 1)
    ensures forall k: nat :: LastDotAt(d, k) ==> at == k + 1
  {
    hide Split, AfterLastDot;
    NextDotIs(d, at, |d|);
    LastLabel(d, 0, at);
  }

  lemma {:induction false} LetterAfter(d: seq<byte>, at: nat)
    requires at <= |d|
    ensures (exists k :: 0 <= k < |d[at..]| && IsLower(d[at..][k])) <==> exists i :: at <= i < |d| && IsLower(d[i])
  {
    var last := d[at..];
    if i :| at <= i < |d| && IsLower(d[i]) { assert IsLower(last[i - at]); }
    if k :| 0 <= k < |last| && IsLower(last[k]) { assert IsLower(d[at + k]); }
  }

  /** Where the last label starts, looking back from position n. */
  function AfterLastDot(d: seq<byte>, n: nat): (at: nat)
    requires n <= |d|
    ensures at <= n && (at > 0 ==> d[at - 1] == DOT)
    ensures forall j :: at <= j < n ==> d[j] != DOT
  {
    if n == 0 || d[n - 1] == DOT then n else AfterLastDot(d, n - 1)
  }

  lemma {:induction false} LastLabel(d: seq<byte>, from: nat, last: nat)
    requires from <= last <= |d| && NextDot(d, last) == |d|
    requires last == from || (last > from && d[last - 1] == DOT)
    ensures Split(d, from)[|Split(d, from)| - 1] == d[last..]
    ensures |Split(d, from)| >= 2 <==> last > from
    decreases |d| - from
  {
    if last > from {
      var k := NextDot(d, from);
      assert k <= last - 1;
      LastLabel(d, k + 1, last);
    }
  }

  method HasAlpha(c: seq<byte>) returns (r: bool)
    ensures r <==> exists k :: 0 <= k < |c| && IsLower(c[k])
  {
    for i := 0 to |c|
      invariant forall k :: 0 <= k < i ==> !IsLower(c[k])
    {
      if IsLower(c[i]) { return true; }
    }
    r := false;
  }

  /** The scan accepts position i, in the label that starts at `first`. */
  predicate Accepts(d: seq<byte>, first: nat, i: nat)
    requires first <= i < |d|
  {
    || IsAlnum(d[i])
    || (d[i] == DOT && i - first <= MAX_LABEL && i > 0 && IsAlnum(d[i - 1]))
    || (d[i] == HYPHEN && i > 0 && (IsAlnum(d[i - 1]) || d[i - 1] == HYPHEN) && i < |d| - 1)
  }

  /** The label being scanned is well formed so far. */
  predicate SoFar(d: seq<byte>, first: nat, i: nat)
    requires first <= i <= |d|
  {
    && (first == 0 || d[first - 1] == DOT)
    && (first < i ==> IsAlnum(d[first]) && (i == |d| ==> IsAlnum(d[i - 1])))
    && (forall k :: first <= k < i ==> IsAlnum(d[k]) || d[k] == HYPHEN)
  }

  lemma {:induction false} NextDotIs(d: seq<byte>, from: nat, k: nat)
    requires from <= k <= |d| && (k < |d| ==> d[k] == DOT)
    requires forall j :: from <= j < k ==> d[j] != DOT
    ensures NextDot(d, from) == k
  {
    var n := NextDot(d, from);
  }

  /** One accepted step: the label goes on, or ends well formed at a dot. */
  lemma {:induction false} ScanStep(d: seq<byte>, first: nat, i: nat)
    requires first <= i < |d| && SoFar(d, first, i) && Accepts(d, first, i)
    ensures d[i] != DOT ==> SoFar(d, first, i + 1)
    ensures d[i] == DOT ==> SoFar(d, i + 1, i + 1) && (LabelsOk(d, first) <==> LabelsOk(d, i + 1))
  {
    if d[i] == DOT {
      NextDotIs(d, first, i);
      var l := d[first..i];
      assert i > first && l[0] == d[first] && l[|l| - 1] == d[i - 1];
      assert IsLabel(l);
    }
  }

  /** A refused position means an ill formed label. */
  lemma {:induction false} ScanStop(d: seq<byte>, first: nat, i: nat)
    requires first <= i < |d| && SoFar(d, first, i) && !Accepts(d, first, i)
    ensures !LabelsOk(d, first)
  {
    var n := NextDot(d, first);
    var l := d[first..n];
    if n <= i {
      assert n == i;
      if i > first { assert l[|l| - 1] == d[i - 1]; }
      assert !IsLabel(l);
    } else {
      assert l[i - first] == d[i];
      if d[i] == HYPHEN && i == |d| - 1 { assert l[|l| - 1] == d[i]; }
      assert !IsLabel(l);
    }
  }

  method IsValidDomain(d: seq<byte>) returns (r: bool)
    ensures r <==> ValidDomain(d)
  {
    hide LabelsOk, SoFar, Accepts, NextDot, Split;
    if |d| < 4 || |d| > MAX_NAME || Reserved(d) { return false; }
    var lastDot, firstCh: nat := 0, 0;
    LabelsOkIs(d, 0);
    assert SoFar(d, 0, 0) by { ScanStart(d); }
    for i := 0 to |d|
      invariant firstCh <= i && SoFar(d, firstCh, i)
      invariant firstCh == 0 == lastDot || (firstCh == lastDot + 1 && lastDot > 0)
      invariant LabelsOk(d, 0) <==> LabelsOk(d, firstCh)
    {
      if !Accepts(d, firstCh, i) {
        ScanStop(d, firstCh, i);
        return false;
      }
      ScanStep(d, firstCh, i);
      if d[i] == DOT {
        ScanDot(d, firstCh, i);
        lastDot, firstCh := i, i + 1;
      }
    }
    ScanEnd(d, firstCh);
    var alpha := HasAlpha(d[firstCh..]);
    r := lastDot > 0 && lastDot < |d| - 2 && |d| - firstCh <= 63 && alpha;
  }

  lemma ScanStart(d: seq<byte>)
    ensures SoFar(d, 0, 0)
  {
  }

  lemma ScanDot(d: seq<byte>, first: nat, i: nat)
    requires first <= i < |d| && Accepts(d, first, i) && d[i] == DOT
    ensures i > 0
  {
  }

  lemma {:induction false} ScanEnd(d: seq<byte>, first: nat)
    requires first <= |d| && |d| > 0 && SoFar(d, first, |d|)
    ensures Split(d, 0)[|Split(d, 0)| - 1] == d[first..]
    ensures |Split(d, 0)| >= 2 <==> first > 0
    ensures LabelsOk(d, first) <==> 1 <= |d| - first <= MAX_LABEL
  {
    hide Split;
    NextDotIs(d, first, |d|);
    LastLabel(d, 0, first);
    var l := d[first..];
    assert d[first..|d|] == l;
    if l != [] { assert l[0] == d[first] && l[|l| - 1] == d[|d| - 1]; }
  }

  // ---- The question -------------------------------------------------------------------

  /** Labels as they go on the wire: each after its length octet. */
  function Wire(labels: seq<seq<byte>>): seq<byte>
  {
    if labels == [] then [] else [|labels[0]| % 256] + labels[0] + Wire(labels[1..])
  }

  lemma {:induction false} WireLength(d: seq<byte>, from: nat)
    requires from <= |d|
    ensures |Wire(Split(d, from))| == |d| - from + 1
    decreases |d| - from
  {
    var k := NextDot(d, from);
    if k < |d| {
      WireLength(d, k + 1);
      assert Split(d, from)[1..] == Split(d, k + 1);
    }
  }

  /** The octets domainToQuestion writes. */
  function Question(d: seq<byte>, queryType: u16): seq<byte>
  {
    Wire(Split(d, 0)) + [0] + ToLe(queryType, 2) + [0, 1]
  }

  method DomainToQuestion(question: array<byte>, d: seq<byte>, queryType: u16)
    requires |d| + 6 <= question.Length
    modifies question
    ensures question[..|d| + 6] == Question(d, queryType)
  {
    hide NextDot, Split, Wire, ToLe;
    WireLength(d, 0);
    CopyLabels(question, d);
    EndQuestion(question, |d| + 1, queryType);
  }

  method CopyLabels(question: array<byte>, d: seq<byte>)
    requires |d| + 1 <= question.Length
    modifies question
    ensures question[..|d| + 1] == Wire(Split(d, 0))
  {
    hide NextDot, Split, Wire;
    var dom, copied: nat := 0, 0;
    ghost var wire := Wire(Split(d, 0));
    while true
      invariant dom == copied <= |d|
      invariant question[..copied] + Wire(Split(d, dom)) == wire
      decreases |d| - dom
    {
      var dot := NextDot(d, dom);
      var sz := dot - dom;
      CopyLabel(question, copied, d[dom..dot]);
      WireCons(d, dom);
      copied := copied + sz + 1;
      if dot == |d| { break; }
      dom := dom + sz + 1;
    }
  }

  /** The length octet and a memcpy. */
  method CopyLabel(question: array<byte>, copied: nat, part: seq<byte>)
    requires copied + 1 + |part| <= question.Length
    modifies question
    ensures question[..copied + 1 + |part|] == old(question[..copied]) + ([|part| % 256] + part)
  {
    question[copied] := |part| % 256;
    forall i | 0 <= i < |part| { question[copied + 1 + i] := part[i]; }
  }

  /** The root label, the type as it lies in memory, the Internet class. */
  method EndQuestion(question: array<byte>, n: nat, queryType: u16)
    requires n + 5 <= question.Length
    modifies question
    ensures question[..n + 5] == old(question[..n]) + [0] + ToLe(queryType, 2) + [0, 1]
  {
    question[n], question[n + 1], question[n + 2] := 0, queryType % 256, queryType / 256;
    question[n + 3], question[n + 4] := 0, 1;
    assert ToLe(queryType, 2) == [queryType % 256, queryType / 256];
  }

  lemma {:induction false} WireCons(d: seq<byte>, from: nat)
    requires from <= |d|
    ensures var k := NextDot(d, from);
            Wire(Split(d, from)) == ([|d[from..k]| % 256] + d[from..k]) + if k == |d| then [] else Wire(Split(d, k + 1))
  {
    hide Wire;
    var k := NextDot(d, from);
    if k < |d| {
      WireStep(d[from..k], Split(d, k + 1));
    } else {
      assert d[from..] == d[from..k];
      WireStep(d[from..k], []);
      assert Wire([]) == [] by { WireNothing(); }
      assert [d[from..k]] + [] == [d[from..k]];
    }
  }

  lemma {:induction false} WireNothing()
    ensures Wire([]) == []
  {
  }

  lemma {:induction false} WireStep(part: seq<byte>, rest: seq<seq<byte>>)
    ensures Wire([part] + rest) == [|part| % 256] + part + Wire(rest)
  {
    assert ([part] + rest)[1..] == rest;
  }

  /** What stands in the question for octet i of the domain: the octet, or in place of a
      dot the length of the label that follows. */
  function WireOctet(d: seq<byte>, i: nat): byte
    requires i < |d|
  {
    if d[i] == DOT then (NextDot(d, i + 1) - (i + 1)) % 256 else d[i]
  }

  function WireRest(d: seq<byte>, from: nat): (r: seq<byte>)
    requires from <= |d|
    ensures |r| == |d| - from
    ensures forall j :: 0 <= j < |r| ==> r[j] == WireOctet(d, from + j)
    decreases |d| - from
  {
    if from == |d| then [] else [WireOctet(d, from)] + WireRest(d, from + 1)
  }

  lemma {:induction false} WireRestTo(d: seq<byte>, from: nat, k: nat)
    requires from <= k <= |d| && forall i :: from <= i < k ==> d[i] != DOT
    ensures WireRest(d, from) == d[from..k] + WireRest(d, k)
    decreases k - from
  {
    hide NextDot, WireRest;
    if from < k {
      WireRestTo(d, from + 1, k);
      WireRestPlain(d, from);
      assert d[from..k] == [d[from]] + d[from + 1..k];
      Assoc([d[from]], d[from + 1..k], WireRest(d, k));
    }
  }

  lemma {:induction false} WireRestPlain(d: seq<byte>, i: nat)
    requires i < |d| && d[i] != DOT
    ensures WireRest(d, i) == [d[i]] + WireRest(d, i + 1)
  {
  }

  lemma {:induction false} WireOctets(d: seq<byte>, from: nat)
    requires from <= |d|
    ensures Wire(Split(d, from)) == [(NextDot(d, from) - from) % 256] + WireRest(d, from)
    decreases |d| - from
  {
    hide Wire, Split, WireRest, NextDot, WireOctet;
    var k := NextDot(d, from);
    WireCons(d, from);
    WireRestTo(d, from, k);
    var head, part, tail := [(k - from) % 256], d[from..k], WireRest(d, k);
    if k < |d| {
      WireOctets(d, k + 1);
      WireRestStep(d, k);
    }
    Assoc(head, part, tail);
  }

  lemma Assoc(a: seq<byte>, b: seq<byte>, c: seq<byte>)
    ensures (a + b) + c == a + (b + c)
  {
  }

  lemma {:induction false} WireRestStep(d: seq<byte>, k: nat)
    requires k < |d| && d[k] == DOT
    ensures WireRest(d, k) == [(NextDot(d, k + 1) - (k + 1)) % 256] + WireRest(d, k + 1)
  {
  }

  /** The question octet by octet: the domain one octet later, the length of the label
      that follows in place of each dot and in front; a zero, the type, the class. */
  lemma {:induction false} QuestionOctets(d: seq<byte>, queryType: u16)
    ensures var q := Question(d, queryType);
      && |q| == |d| + 6 && q[0] == NextDot(d, 0) % 256
      && q[1..|d| + 1] == WireRest(d, 0)
      && q[|d| + 1..] == [0, queryType % 256, queryType / 256, 0, 1]
  {
    hide Wire, Split, NextDot, WireOctet, WireRest, ToLe;
    WireOctets(d, 0);
    TypeOctets(queryType);
    var first, rest, tail := [NextDot(d, 0) % 256], WireRest(d, 0), [0, queryType % 256, queryType / 256, 0, 1];
    assert [0] + [queryType % 256, queryType / 256] + [0, 1] == tail;
    Assoc(first + rest, [0] + ToLe(queryType, 2), [0, 1]);
    Assoc(first + rest, [0], ToLe(queryType, 2));
    ThreeParts(first, rest, tail);
  }

  lemma {:induction false} TypeOctets(queryType: u16)
    ensures ToLe(queryType, 2) == [queryType % 256, queryType / 256]
  {
    assert ToLe(queryType, 2) == [queryType % 256] + ToLe(queryType / 256, 1);
    assert ToLe(queryType / 256, 1) == [queryType / 256 % 256] + ToLe(queryType / 256 / 256, 0);
  }

  lemma ThreeParts(a: seq<byte>, b: seq<byte>, c: seq<byte>)
    requires |a| == 1
    ensures var q := a + b + c; q[0] == a[0] && q[1..|b| + 1] == b && q[|b| + 1..] == c
  {
  }

  // ---- Reading a name -------------------------------------------------------------------

  /** What a read leaves: the name so far, and the offset after it unless it failed. */
  datatype Read = Read(name: seq<byte>, end: Option<nat>)

  /** A label appended, after a dot unless it is the first. */
  function Extended(name: seq<byte>, part: seq<byte>): seq<byte>
  {
    (if name == [] then [] else name + [DOT]) + part
  }

  /** The little-endian offset a compression pointer holds. */
  function Target(msg: seq<byte>, off: nat): nat
    requires off + 1 < |msg|
  {
    FromLe([msg[off + 1], msg[off] % 64])
  }

  /** A received message, with room after its end for one label. */
  predicate Message(msg: seq<byte>, lenMsg: nat)
  {
    lenMsg + MAX_LABEL + 1 <= |msg|
  }

  /** rr_getName. The result of the read a pointer leads to is not looked at. */
  function GetName(msg: seq<byte>, lenMsg: nat, off: nat, name: seq<byte>, allowPointer: bool): (r: Read)
    requires Message(msg, lenMsg) && |name| <= MAX_NAME
    ensures name <= r.name && |r.name| <= MAX_NAME
    ensures r.end.Some? ==> off < r.end.value <= lenMsg + 1
    decreases MAX_NAME - |name|, allowPointer
  {
    if off >= lenMsg then Read(name, None)
    else if msg[off] >= 192 then
      if !allowPointer then Read(name, None)
      else Read(GetName(msg, lenMsg, Target(msg, off), name, false).name, Some(off + 2))
    else if msg[off] >= 64 then Read(name, None)
    else if msg[off] == 0 then Read(name, Some(off + 1))
    else if |name| + msg[off] + 1 > MAX_NAME then Read(name, None)
    else GetName(msg, lenMsg, off + msg[off] + 1, Extended(name, msg[off + 1..off + 1 + msg[off]]), true)
  }

  /** The same, writing into the caller's buffer. */
  method RrGetName(msg: seq<byte>, lenMsg: nat, rrOffset: nat, name: array<byte>, lenName: nat, allowPointer: bool)
    returns (end: int, len: nat)
    requires Message(msg, lenMsg) && lenName <= MAX_NAME <= name.Length
    modifies name
    ensures lenName <= len <= MAX_NAME
    ensures var r := GetName(msg, lenMsg, rrOffset, old(name[..lenName]), allowPointer);
            name[..len] == r.name && end == if r.end.Some? then r.end.value else -1
    decreases MAX_NAME - lenName, allowPointer
  {
    hide Extended, Target;
    var offset, allow := rrOffset, allowPointer;
    len := lenName;
    while offset < lenMsg
      invariant lenName <= len <= MAX_NAME && (len == lenName ==> allow == allowPointer)
      invariant GetName(msg, lenMsg, offset, name[..len], allow) == GetName(msg, lenMsg, rrOffset, old(name[..lenName]), allowPointer)
      decreases lenMsg - offset
    {
      var first := msg[offset];
      if first >= 192 {
        if !allow { return -1, len; }
        var _, l := RrGetName(msg, lenMsg, Target(msg, offset), name, len, false);
        return offset + 2, l;
      }
      if first >= 64 { return -1, len; }
      allow := true;
      if first == 0 { return offset + 1, len; }
      if len + first + 1 > MAX_NAME { return -1, len; }
      len := AppendLabel(name, len, msg[offset + 1..offset + 1 + first]);
      offset := offset + first + 1;
    }
    end := -1;
  }

  method AppendLabel(name: array<byte>, lenName: nat, part: seq<byte>) returns (len: nat)
    requires lenName + 1 + |part| <= MAX_NAME <= name.Length
    modifies name
    ensures lenName + |part| <= len <= MAX_NAME
    ensures name[..len] == Extended(old(name[..lenName]), part)
  {
    len := lenName;
    if len > 0 {
      name[len] := DOT;
      len := len + 1;
    }
    ghost var dotted := name[..len];
    forall i | 0 <= i < |part| { name[len + i] := part[i]; }
    assert name[len..len + |part|] == part;
    len := len + |part|;
    assert name[..len] == dotted + part;
  }

  // ---- What a name means -------------------------------------------------------------------

  /** How a name is laid out: labels, then a zero octet or a pointer to another. */
  datatype Path = End | Label(rest: Path) | Pointer(rest: Path)

  /** Section 4.1.4 of RFC 1035 (with the offset's octets the way Target reads
      them): the octets at `off` spell the labels, laid out as p says. */
  predicate Spells(msg: seq<byte>, lenMsg: nat, off: nat, p: Path, labels: seq<seq<byte>>)
    requires Message(msg, lenMsg)
    decreases p
  {
    && off < lenMsg
    && match p
       case End => msg[off] == 0 && labels == []
       case Label(rest) =>
         && 1 <= msg[off] <= MAX_LABEL && labels != [] && labels[0] == msg[off + 1..off + 1 + msg[off]]
         && Spells(msg, lenMsg, off + 1 + msg[off], rest, labels[1..])
       case Pointer(rest) => msg[off] >= 192 && Spells(msg, lenMsg, Target(msg, off), rest, labels)
  }

  /** No pointer leads straight to another. */
  predicate Spaced(p: Path, allowPointer: bool)
  {
    match p
    case End => true
    case Label(rest) => Spaced(rest, true)
    case Pointer(rest) => allowPointer && Spaced(rest, false)
  }

  function Appended(name: seq<byte>, labels: seq<seq<byte>>): (r: seq<byte>)
    ensures |r| >= |name|
    decreases |labels|
  {
    if labels == [] then name else Appended(Extended(name, labels[0]), labels[1..])
  }

  /** Where the name ends in the message: after its zero octet or first pointer. */
  function EndOf(msg: seq<byte>, lenMsg: nat, off: nat, p: Path): nat
    requires Message(msg, lenMsg)
    decreases p
  {
    match p
    case End => off + 1
    case Pointer(_) => off + 2
    case Label(rest) => if off < lenMsg then EndOf(msg, lenMsg, off + 1 + msg[off], rest) else off
  }

  /** No read fails on the way, the one after a pointer included. */
  predicate Whole(msg: seq<byte>, lenMsg: nat, off: nat, name: seq<byte>, allowPointer: bool)
    requires Message(msg, lenMsg) && |name| <= MAX_NAME
    decreases MAX_NAME - |name|, allowPointer
  {
    && off < lenMsg
    && if msg[off] >= 192 then allowPointer && Whole(msg, lenMsg, Target(msg, off), name, false)
       else if msg[off] == 0 then true
       else
         && msg[off] < 64 && |name| + msg[off] + 1 <= MAX_NAME
         && Whole(msg, lenMsg, off + msg[off] + 1, Extended(name, msg[off + 1..off + 1 + msg[off]]), true)
  }

  /** Every laid-out name that fits is read whole, as its labels joined by dots. */
  lemma {:induction false} ReadsSpelled(msg: seq<byte>, lenMsg: nat, off: nat, name: seq<byte>, allowPointer: bool, p: Path, labels: seq<seq<byte>>)
    requires Message(msg, lenMsg) && |Appended(name, labels)| <= MAX_NAME
    requires Spells(msg, lenMsg, off, p, labels) && Spaced(p, allowPointer)
    ensures |name| <= MAX_NAME && Whole(msg, lenMsg, off, name, allowPointer)
    ensures GetName(msg, lenMsg, off, name, allowPointer) == Read(Appended(name, labels), Some(EndOf(msg, lenMsg, off, p)))
    decreases p
  {
    match p
    case End =>
    case Pointer(rest) => ReadsSpelled(msg, lenMsg, Target(msg, off), name, false, rest, labels);
    case Label(rest) =>
      ReadsSpelled(msg, lenMsg, off + 1 + msg[off], Extended(name, labels[0]), true, rest, labels[1..]);
  }

  /** The layout and labels of a name that is read whole. */
  lemma {:induction false} SpelledWhenWhole(msg: seq<byte>, lenMsg: nat, off: nat, name: seq<byte>, allowPointer: bool)
    returns (p: Path, labels: seq<seq<byte>>)
    requires Message(msg, lenMsg) && |name| <= MAX_NAME
    requires Whole(msg, lenMsg, off, name, allowPointer)
    ensures Spells(msg, lenMsg, off, p, labels) && Spaced(p, allowPointer)
    ensures |Appended(name, labels)| <= MAX_NAME
    decreases MAX_NAME - |name|, allowPointer
  {
    if msg[off] >= 192 {
      var q, ls := SpelledWhenWhole(msg, lenMsg, Target(msg, off), name, false);
      p, labels := Pointer(q), ls;
    } else if msg[off] == 0 {
      p, labels := End, [];
    } else {
      var part := msg[off + 1..off + 1 + msg[off]];
      var q, ls := SpelledWhenWhole(msg, lenMsg, off + 1 + msg[off], Extended(name, part), true);
      p, labels := Label(q), [part] + ls;
      assert labels[1..] == ls;
    }
  }

  lemma {:induction false} TargetOctets(msg: seq<byte>, off: nat)
    requires off + 1 < |msg|
    ensures Target(msg, off) == msg[off] as int % 64 * 256 + msg[off + 1] as int
  {
    var s := [msg[off + 1], msg[off] % 64];
    assert s[1..] == [msg[off] % 64] && s[1..][1..] == [];
    assert FromLe(s[1..]) == s[1..][0] + 256 * FromLe(s[1..][1..]);
  }

  /** Labels lie in a row from `off` on, up to position e. */
  predicate InRow(msg: seq<byte>, lenMsg: nat, off: nat, labels: seq<seq<byte>>, e: nat)
    requires Message(msg, lenMsg)
    decreases |labels|
  {
    if labels == [] then off == e
    else
      && off < lenMsg && 1 <= msg[off] <= 63 && labels[0] == msg[off + 1..off + 1 + msg[off]]
      && InRow(msg, lenMsg, off + 1 + msg[off], labels[1..], e)
  }

  /** A row of labels that fits, and the zero octet or the pointer that ends it. */
  predicate Ended(msg: seq<byte>, lenMsg: nat, off: nat, name: seq<byte>, allowPointer: bool, labels: seq<seq<byte>>, e: nat)
    requires Message(msg, lenMsg)
  {
    && InRow(msg, lenMsg, off, labels, e) && e < lenMsg && |Appended(name, labels)| <= 127
    && (msg[e] == 0 || (msg[e] >= 192 && (allowPointer || labels != [])))
  }

  lemma {:induction false} EndedRead(msg: seq<byte>, lenMsg: nat, off: nat, name: seq<byte>, allowPointer: bool, labels: seq<seq<byte>>, e: nat)
    requires Message(msg, lenMsg) && |name| <= 127 && Ended(msg, lenMsg, off, name, allowPointer, labels, e)
    ensures var r := GetName(msg, lenMsg, off, name, allowPointer);
      && r.end == Some(if msg[e] == 0 then e + 1 else e + 2)
      && Appended(name, labels) <= r.name && (msg[e] == 0 ==> r.name == Appended(name, labels))
    decreases |labels|
  {
    hide Target;
    if labels != [] {
      EndedRead(msg, lenMsg, off + 1 + msg[off], Extended(name, labels[0]), true, labels[1..], e);
    }
  }

  lemma {:induction false} ReadEnded(msg: seq<byte>, lenMsg: nat, off: nat, name: seq<byte>, allowPointer: bool)
    returns (labels: seq<seq<byte>>, e: nat)
    requires Message(msg, lenMsg) && |name| <= 127 && GetName(msg, lenMsg, off, name, allowPointer).end.Some?
    ensures Ended(msg, lenMsg, off, name, allowPointer, labels, e)
    decreases MAX_NAME - |name|, allowPointer
  {
    hide Target;
    if msg[off] >= 192 || msg[off] == 0 {
      labels, e := [], off;
    } else {
      var part := msg[off + 1..off + 1 + msg[off]];
      var more;
      more, e := ReadEnded(msg, lenMsg, off + 1 + msg[off], Extended(name, part), true);
      labels := [part] + more;
      assert labels[1..] == more;
    }
  }

  /** A read succeeds exactly when there is such a row, whatever a pointer at its end
      leads to, and ends right after it; without a pointer the labels are all there is. */
  lemma {:induction false} SucceedsIff(msg: seq<byte>, lenMsg: nat, off: nat, name: seq<byte>, allowPointer: bool)
    requires Message(msg, lenMsg) && |name| <= 127
    ensures GetName(msg, lenMsg, off, name, allowPointer).end.Some? <==>
      exists labels, e: nat :: Ended(msg, lenMsg, off, name, allowPointer, labels, e)
    ensures forall labels, e: nat :: Ended(msg, lenMsg, off, name, allowPointer, labels, e) ==>
      var r := GetName(msg, lenMsg, off, name, allowPointer);
      && r.end == Some(if msg[e] == 0 then e + 1 else e + 2)
      && Appended(name, labels) <= r.name && (msg[e] == 0 ==> r.name == Appended(name, labels))
  {
    hide GetName, InRow, Appended;
    if GetName(msg, lenMsg, off, name, allowPointer).end.Some? {
      var labels, e := ReadEnded(msg, lenMsg, off, name, allowPointer);
    }
    forall labels, e: nat | Ended(msg, lenMsg, off, name, allowPointer, labels, e)
      ensures var r := GetName(msg, lenMsg, off, name, allowPointer);
        && r.end == Some(if msg[e] == 0 then e + 1 else e + 2)
        && Appended(name, labels) <= r.name && (msg[e] == 0 ==> r.name == Appended(name, labels))
    {
      EndedRead(msg, lenMsg, off, name, allowPointer, labels, e);
    }
  }

  /** A layout of labels that a read which has `name` so far can follow to its end. */
  predicate Layout(msg: seq<byte>, lenMsg: nat, off: nat, name: seq<byte>, allowPointer: bool, p: Path, labels: seq<seq<byte>>)
    requires Message(msg, lenMsg)
  {
    Spells(msg, lenMsg, off, p, labels) && Spaced(p, allowPointer) && |Appended(name, labels)| <= MAX_NAME
  }

  /** A name is read whole if and only if it is laid out like that, and then what is
      read is its labels joined by dots. */
  lemma {:induction false} WholeIff(msg: seq<byte>, lenMsg: nat, off: nat, name: seq<byte>, allowPointer: bool)
    requires Message(msg, lenMsg) && |name| <= MAX_NAME
    ensures Whole(msg, lenMsg, off, name, allowPointer) <==> exists p, labels :: Layout(msg, lenMsg, off, name, allowPointer, p, labels)
    ensures forall p, labels :: Layout(msg, lenMsg, off, name, allowPointer, p, labels) ==>
      GetName(msg, lenMsg, off, name, allowPointer) == Read(Appended(name, labels), Some(EndOf(msg, lenMsg, off, p)))
  {
    hide Whole, Spells, Spaced, Appended, GetName, EndOf;
    if Whole(msg, lenMsg, off, name, allowPointer) {
      var p, labels := SpelledWhenWhole(msg, lenMsg, off, name, allowPointer);
      assert Layout(msg, lenMsg, off, name, allowPointer, p, labels);
    }
    forall p, labels | Layout(msg, lenMsg, off, name, allowPointer, p, labels)
      ensures Whole(msg, lenMsg, off, name, allowPointer)
      ensures GetName(msg, lenMsg, off, name, allowPointer) == Read(Appended(name, labels), Some(EndOf(msg, lenMsg, off, p)))
    {
      ReadsSpelled(msg, lenMsg, off, name, allowPointer, p, labels);
    }
  }

  /** A pointer to itself spells no name, and yet its reading succeeds, with an
      empty one: only the read the pointer leads to fails. */
  lemma {:induction false} SelfPointerSucceeds(msg: seq<byte>, lenMsg: nat, off: nat)
    requires Message(msg, lenMsg) && off < lenMsg && msg[off] >= 192 && Target(msg, off) == off
    ensures GetName(msg, lenMsg, off, [], true) == Read([], Some(off + 2))
    ensures forall p, labels :: !Spells(msg, lenMsg, off, p, labels)
  {
    forall p, labels ensures !Spells(msg, lenMsg, off, p, labels) { SelfPointer(msg, lenMsg, off, p, labels); }
  }

  lemma {:induction false} SelfPointer(msg: seq<byte>, lenMsg: nat, off: nat, p: Path, labels: seq<seq<byte>>)
    requires Message(msg, lenMsg) && off < lenMsg && msg[off] >= 192 && Target(msg, off) == off
    ensures !Spells(msg, lenMsg, off, p, labels)
    decreases p
  {
    if p.Pointer? { SelfPointer(msg, lenMsg, off, p.rest, labels); }
  }

  // ---- Round trip ------------------------------------------------------------------------------

  function Plain(n: nat): Path
  {
    if n == 0 then End else Label(Plain(n - 1))
  }

  ghost predicate FitLabels(labels: seq<seq<byte>>)
  {
    forall k :: 0 <= k < |labels| ==> 1 <= |labels[k]| <= MAX_LABEL
  }

  lemma {:induction false} Parts(msg: seq<byte>, off: nat, x: byte, l: seq<byte>, r: seq<byte>)
    requires off + 1 + |l| + |r| <= |msg| && msg[off..off + 1 + |l| + |r|] == [x] + l + r
    ensures msg[off] == x && msg[off + 1..off + 1 + |l|] == l && msg[off + 1 + |l|..off + 1 + |l| + |r|] == r
  {
    var here := msg[off..off + 1 + |l| + |r|];
    assert forall i :: 0 <= i < |here| ==> here[i] == msg[off + i];
    assert here[0] == x && here[1..1 + |l|] == l && here[1 + |l|..] == r;
    assert forall i :: 0 <= i < |l| ==> l[i] == here[i + 1];
    assert forall i :: 0 <= i < |r| ==> r[i] == here[i + 1 + |l|];
  }

  lemma SpellsEnd(msg: seq<byte>, lenMsg: nat, off: nat)
    requires Message(msg, lenMsg) && off < lenMsg && msg[off] == 0
    ensures Spells(msg, lenMsg, off, End, []) && EndOf(msg, lenMsg, off, End) == off + 1
  {
  }

  lemma {:induction false} SpellsLabel(msg: seq<byte>, lenMsg: nat, off: nat, p: Path, l: seq<byte>, labels: seq<seq<byte>>)
    requires Message(msg, lenMsg) && off < lenMsg && 1 <= |l| <= MAX_LABEL
    requires msg[off] == |l| && msg[off + 1..off + 1 + |l|] == l
    requires Spells(msg, lenMsg, off + 1 + |l|, p, labels)
    ensures Spells(msg, lenMsg, off, Label(p), [l] + labels)
    ensures EndOf(msg, lenMsg, off, Label(p)) == EndOf(msg, lenMsg, off + 1 + |l|, p)
  {
    assert ([l] + labels)[1..] == labels;
  }

  lemma {:induction false} WireSpells(msg: seq<byte>, lenMsg: nat, off: nat, labels: seq<seq<byte>>)
    requires Message(msg, lenMsg) && FitLabels(labels)
    requires off + |Wire(labels)| < lenMsg && msg[off..off + |Wire(labels)| + 1] == Wire(labels) + [0]
    ensures Spells(msg, lenMsg, off, Plain(|labels|), labels) && Spaced(Plain(|labels|), true)
    ensures EndOf(msg, lenMsg, off, Plain(|labels|)) == off + |Wire(labels)| + 1
    decreases |labels|
  {
    hide Spells, EndOf;
    if labels == [] {
      Parts(msg, off, 0, [], []);
      SpellsEnd(msg, lenMsg, off);
    } else {
      var l, rest := labels[0], Wire(labels[1..]);
      assert Wire(labels) + [0] == [|l|] + l + (rest + [0]);
      Parts(msg, off, |l|, l, rest + [0]);
      WireSpells(msg, lenMsg, off + 1 + |l|, labels[1..]);
      SpellsLabel(msg, lenMsg, off, Plain(|labels| - 1), l, labels[1..]);
      assert [l] + labels[1..] == labels;
    }
  }

  lemma {:induction false} AppendedJoin(name: seq<byte>, labels: seq<seq<byte>>)
    requires FitLabels(labels)
    ensures Appended(name, labels) ==
      if labels == [] then name else if name == [] then Join(labels) else name + [DOT] + Join(labels)
    decreases |labels|
  {
    hide Join;
    if labels != [] {
      var first, rest := labels[0], labels[1..];
      AppendedJoin(Extended(name, first), rest);
      assert labels == [first] + rest;
      JoinCons(first, rest);
      if rest != [] && name != [] {
        assert name + [DOT] + first + [DOT] + Join(rest) == name + [DOT] + (first + [DOT] + Join(rest));
      }
    }
  }

  /** The question for a valid domain, wherever it lies in a message, is read back
      as that domain, and the read ends right after it. */
  lemma {:induction false} QuestionReadsBack(d: seq<byte>, queryType: u16, msg: seq<byte>, lenMsg: nat, off: nat)
    requires ValidDomain(d) && Message(msg, lenMsg)
    requires off + |d| + 6 <= lenMsg && msg[off..off + |d| + 6] == Question(d, queryType)
    ensures GetName(msg, lenMsg, off, [], true) == Read(d, Some(off + |d| + 2))
  {
    hide ToLe, Split, Wire, GetName, Appended, Join, Spells, Spaced, EndOf;
    var labels := Split(d, 0);
    WireLength(d, 0);
    assert Question(d, queryType)[..|d| + 2] == Wire(labels) + [0];
    assert msg[off..off + |d| + 2] == msg[off..off + |d| + 6][..|d| + 2];
    WireSpells(msg, lenMsg, off, labels);
    AppendedJoin([], labels);
    JoinSplit(d, 0);
    assert d[0..] == d;
    ReadsSpelled(msg, lenMsg, off, [], true, Plain(|labels|), labels);
  }
}
