/** The distributed job: records dealt round-robin to map targets, the mapped records grouped here, one reduce call. */
module Coordinator {
  import opened Results
  import opened Text
  import opened MapReduce
  import opened Engine

  const MAX_FANOUT := 64

  predicate IsControl(c: char) { c < ' ' || c == '\U{007F}' }

  /** A trimmed, nonempty name of at most 256 characters without control characters. */
  predicate ValidNodeName(name: string) {
    var n := TrimSpace(name);
    n != "" && |n| <= 256 && forall c :: c in n ==> !IsControl(c)
  }

  // ---------------------------------------------------------------------------------------------
  // Partitioning

  /** Deals the records in turn to `m` lists. */
  function Deal(records: seq<Record>, m: nat): (r: seq<seq<Record>>)
    requires m > 0
    ensures |r| == m
  {
    if records == [] then seq(m, _ => [])
    else
      var n := |records| - 1;
      var before := Deal(records[..n], m);
      before[n % m := before[n % m] + [records[n]]]
  }

  lemma {:induction false} DealtLength(records: seq<Record>, m: nat, j: nat)
    requires m > 0 && j < m
    ensures |Deal(records, m)[j]| == (|records| + m - 1 - j) / m
  {
    if records == [] {
      DivSmall(m - 1 - j, m);
    } else {
      var n := |records| - 1;
      DealtLength(records[..n], m, j);
      LengthStep(n, m, j);
    }
  }

  /** List `j` holds, in order, the records at `j`, `j + m`, `j + 2m`, ... */
  lemma {:induction false} DealtInTurn(records: seq<Record>, m: nat, j: nat, k: nat)
    requires m > 0 && j < m && k < |Deal(records, m)[j]|
    ensures 0 <= j + k * m < |records| && Deal(records, m)[j][k] == records[j + k * m]
  {
    if records != [] {
      var n := |records| - 1;
      var before := Deal(records[..n], m);
      if k < |before[j]| {
        DealtInTurn(records[..n], m, j, k);
      } else {
        DealtLength(records[..n], m, j);
        LengthStep(n, m, j);
        assert j == n % m && k == n / m;
        Euclid(n, m);
      }
    }
  }

  lemma Euclid(n: nat, m: nat)
    requires m > 0
    ensures n == n % m + n / m * m
  {}

  lemma DivSmall(a: nat, m: nat)
    requires a < m
    ensures a / m == 0
  {}

  /** The list that receives record `n` grows from `n / m` to `n / m + 1` records; the others keep their length. */
  lemma LengthStep(n: nat, m: nat, j: nat)
    requires m > 0 && j < m
    ensures (n + m - 1 - j) / m == n / m + if j < n % m then 1 else 0
    ensures (n + 1 + m - 1 - j) / m == n / m + if j <= n % m then 1 else 0
  {
    var q, r := n / m, n % m;
    Quotient(q, m, r + m - 1 - j);
    Quotient(q, m, r + m - j);
    assert n == q * m + r;
  }

  lemma Quotient(q: nat, m: nat, rest: nat)
    requires m > 0 && rest < 2 * m
    ensures (q * m + rest) / m == q + if rest < m then 0 else 1
  {
    assert (q + 1) * m == q * m + m;
    DivUnique(q * m + rest, m, q + if rest < m then 0 else 1);
  }

  lemma DivUnique(a: int, m: int, q: int)
    requires m > 0 && q * m <= a < q * m + m
    ensures a / m == q
  {
    var d := a / m;
    assert a == d * m + a % m;
    assert (d - q) * m == d * m - q * m;
    MulApart(d - q, m);
  }

  lemma MulApart(k: int, m: int)
    requires m > 0
    ensures (k >= 1 ==> k * m >= m) && (k <= -1 ==> k * m <= -m)
  {
    if k >= 1 { assert (k - 1) * m >= 0; }
    if k <= -1 { assert (-k - 1) * m >= 0; }
  }

  /** Dealing conserves the records. */
  lemma {:induction false} DealConserves(records: seq<Record>, m: nat)
    requires m > 0
    ensures multiset(Concat(Deal(records, m))) == multiset(records)
  {
    if records == [] {
      EmptyConcat(m);
    } else {
      hide Concat;
      var n := |records| - 1;
      var before := Deal(records[..n], m);
      DealConserves(records[..n], m);
      ConcatUpdate(before, n % m, records[n]);
      BagSnoc(records);
    }
  }

  lemma BagSnoc<T>(s: seq<T>)
    requires s != []
    ensures multiset(s) == multiset(s[..|s| - 1]) + multiset{s[|s| - 1]}
  {
    assert s == s[..|s| - 1] + [s[|s| - 1]];
  }

  lemma {:induction false} EmptyConcat(m: nat)
    ensures Concat<Record>(seq(m, _ => [])) == []
  {
    if m > 0 {
      var s: seq<seq<Record>> := seq(m, _ => []);
      assert s[..m - 1] == seq(m - 1, _ => []);
      EmptyConcat(m - 1);
    }
  }

  lemma {:induction false} ConcatUpdate(lists: seq<seq<Record>>, i: nat, r: Record)
    requires i < |lists|
    ensures multiset(Concat(lists[i := lists[i] + [r]])) == multiset(Concat(lists)) + multiset{r}
  {
    var n := |lists| - 1;
    var updated := lists[i := lists[i] + [r]];
    if i == n {
      assert updated[..n] == lists[..n];
    } else {
      assert updated[..n] == lists[..n][i := lists[i] + [r]];
      ConcatUpdate(lists[..n], i, r);
    }
  }

  /** Drops the empty lists. */
  function Compact(parts: seq<seq<Record>>): seq<seq<Record>> {
    if parts == [] then []
    else Compact(parts[..|parts| - 1]) + if parts[|parts| - 1] != [] then [parts[|parts| - 1]] else []
  }

  /** The targets of the lists that are kept, in the same order. */
  function Owners(targets: seq<string>, parts: seq<seq<Record>>): (names: seq<string>)
    requires |targets| == |parts|
    ensures |names| == |Compact(parts)| <= |parts| && forall t :: t in names ==> t in targets
    decreases |parts|
  {
    if parts == [] then []
    else
      var n := |parts| - 1;
      Owners(targets[..n], parts[..n]) + if parts[n] != [] then [targets[n]] else []
  }

  lemma {:induction false} CompactKeepsConcat(parts: seq<seq<Record>>)
    ensures Concat(Compact(parts)) == Concat(parts)
  {
    if parts != [] {
      var before, last := parts[..|parts| - 1], parts[|parts| - 1];
      CompactKeepsConcat(before);
      if last == [] {
        assert Compact(parts) == Compact(before);
        assert Concat(before) + last == Concat(before);
      } else {
        var c := Compact(before) + [last];
        assert c[..|c| - 1] == Compact(before);
      }
    }
  }

  /** Every record is dealt once, and no part is empty. */
  ghost predicate Splits(records: seq<Record>, parts: seq<seq<Record>>) {
    multiset(Concat(parts)) == multiset(records) && forall i :: 0 <= i < |parts| ==> parts[i] != []
  }

  predicate TargetsOk(raw: seq<string>) {
    (forall t :: t in raw ==> Blank(t) || ValidNodeName(t)) && 1 <= |DistinctTrimmed(raw)| <= MAX_FANOUT
  }

  lemma {:induction false} CompactNonEmpty(parts: seq<seq<Record>>)
    ensures forall i :: 0 <= i < |Compact(parts)| ==> Compact(parts)[i] != []
    ensures |Compact(parts)| <= |parts|
  {
    if parts != [] { CompactNonEmpty(parts[..|parts| - 1]); }
  }

  method CleanTargets(raw: seq<string>) returns (r: Option<seq<string>>)
    ensures r.Some? <==> forall t :: t in raw ==> Blank(t) || ValidNodeName(t)
    ensures r.Some? ==> r.value == DistinctTrimmed(raw)
  {
    hide ValidNodeName, TrimSpace;
    var targets: seq<string> := [];
    for i := 0 to |raw|
      invariant targets == DistinctTrimmed(raw[..i])
      invariant forall j :: 0 <= j < i ==> Blank(raw[j]) || ValidNodeName(raw[j])
    {
      assert raw[..i + 1][..i] == raw[..i];
      var target := TrimSpace(raw[i]);
      if target != "" {
        if !ValidNodeName(raw[i]) {
          assert raw[i] in raw;
          return None;
        }
        if target !in targets { targets := targets + [target]; }
      }
    }
    assert raw[..|raw|] == raw;
    return Some(targets);
  }

  method PartitionTargets(raw: seq<string>, records: seq<Record>)
    returns (r: Result<(seq<string>, seq<seq<Record>>), Failure>)
    ensures r.Ok? <==> TargetsOk(raw)
    ensures r.Err? ==> r.error == InvalidRequest
    ensures r.Ok? ==> r.value.1 == Sent(raw, records) && r.value.0 == SentTo(raw, records) && Splits(records, r.value.1)
  {
    hide ValidNodeName, TrimSpace, DistinctTrimmed, Owners, Compact;
    var clean := CleanTargets(raw);
    if clean.None? { return Err(InvalidRequest); }
    var targets := clean.value;
    if |targets| == 0 || |targets| > MAX_FANOUT { return Err(InvalidRequest); }
    var m := |targets|;
    var parts: seq<seq<Record>> := seq(m, _ => []);
    for i := 0 to |records|
      invariant parts == Deal(records[..i], m)
    {
      assert records[..i + 1][..i] == records[..i];
      parts := parts[i % m := parts[i % m] + [records[i]]];
    }
    assert records[..|records|] == records;
    var names, kept := CompactTargets(targets, parts);
    DealConserves(records, m);
    CompactKeepsConcat(parts);
    CompactNonEmpty(parts);
    return Ok((names, kept));
  }

  /** Drops the targets that were dealt nothing. */
  method CompactTargets(targets: seq<string>, parts: seq<seq<Record>>)
    returns (names: seq<string>, kept: seq<seq<Record>>)
    requires |targets| == |parts|
    ensures kept == Compact(parts) && names == Owners(targets, parts)
  {
    names, kept := [], [];
    for i := 0 to |parts|
      invariant kept == Compact(parts[..i]) && names == Owners(targets[..i], parts[..i])
    {
      assert parts[..i + 1][..i] == parts[..i] && targets[..i + 1][..i] == targets[..i];
      if |parts[i]| > 0 {
        names := names + [targets[i]];
        kept := kept + [parts[i]];
      }
    }
    assert parts[..|parts|] == parts && targets[..|parts|] == targets;
  }

  /** What is sent, and to whom: the records dealt in turn to the distinct targets, without the empty hands. */
  function Sent(raw: seq<string>, records: seq<Record>): seq<seq<Record>>
    requires DistinctTrimmed(raw) != []
  {
    Compact(Deal(records, |DistinctTrimmed(raw)|))
  }

  function SentTo(raw: seq<string>, records: seq<Record>): (names: seq<string>)
    requires DistinctTrimmed(raw) != []
    ensures |names| == |Sent(raw, records)|
  {
    Owners(DistinctTrimmed(raw), Deal(records, |DistinctTrimmed(raw)|))
  }

  lemma {:induction false} CompactPrefix(targets: seq<string>, parts: seq<seq<Record>>, k: nat)
    requires |targets| == |parts| && k <= |parts| && forall j :: 0 <= j < |parts| ==> (parts[j] != [] <==> j < k)
    ensures Compact(parts) == parts[..k] && Owners(targets, parts) == targets[..k]
  {
    if parts != [] {
      var n := |parts| - 1;
      CompactPrefix(targets[..n], parts[..n], if k <= n then k else n);
      if k == |parts| {
        assert parts[..k] == parts[..n] + [parts[n]] && targets[..k] == targets[..n] + [targets[n]];
      } else {
        assert parts[..n][..k] == parts[..k] && targets[..n][..k] == targets[..k];
      }
    }
  }

  /** The first targets are sent something, one for each record as far as there are targets: target `j` every `m`-th
      record from the `j`-th on. */
  lemma SentExactly(raw: seq<string>, records: seq<Record>)
    requires DistinctTrimmed(raw) != []
    ensures var targets := DistinctTrimmed(raw); var m := |targets|; var k := if |records| < m then |records| else m;
            && SentTo(raw, records) == targets[..k] && |Sent(raw, records)| == k
            && forall j :: 0 <= j < k ==> InTurn(Sent(raw, records)[j], records, m, j)
  {
    hide DistinctTrimmed, Deal, Compact, Owners;
    var targets := DistinctTrimmed(raw);
    var m := |targets|;
    var k := if |records| < m then |records| else m;
    var parts := Deal(records, m);
    forall j | 0 <= j < m ensures parts[j] != [] <==> j < k { HandNotEmpty(records, m, j); }
    CompactPrefix(targets, parts, k);
    forall j | 0 <= j < k ensures InTurn(parts[j], records, m, j) { HandInTurn(records, m, j); }
  }

  /** The hand holds every `m`-th record from the `j`-th on. */
  ghost predicate InTurn(hand: seq<Record>, records: seq<Record>, m: nat, j: nat) {
    && (m > 0 ==> |hand| == (|records| + m - 1 - j) / m)
    && forall i :: 0 <= i < |hand| ==> 0 <= j + i * m < |records| && hand[i] == records[j + i * m]
  }

  lemma HandInTurn(records: seq<Record>, m: nat, j: nat)
    requires m > 0 && j < m
    ensures InTurn(Deal(records, m)[j], records, m, j)
  {
    hide Deal;
    DealtLength(records, m, j);
    forall i | 0 <= i < |Deal(records, m)[j]|
      ensures 0 <= j + i * m < |records| && Deal(records, m)[j][i] == records[j + i * m] {
      DealtInTurn(records, m, j, i);
    }
  }

  lemma HandNotEmpty(records: seq<Record>, m: nat, j: nat)
    requires m > 0 && j < m
    ensures Deal(records, m)[j] != [] <==> j < |records|
  {
    hide Deal;
    DealtLength(records, m, j);
    var a := |records| + m - 1 - j;
    if a < m { DivSmall(a, m); } else { assert a / m >= 1; }
  }

  // ---------------------------------------------------------------------------------------------
  // The job

  /** The map calls end in any order; each writes its own slot, and the first failure to end is the one kept.  The
      job goes on only if every call succeeded, with the slots joined in target order. */
  method GatherMapped(responses: seq<Result<seq<Record>, Failure>>, order: seq<nat>)
    returns (r: Result<seq<Record>, Failure>)
    requires forall i: nat :: i < |responses| <==> i in order
    ensures r.Ok? <==> forall i :: 0 <= i < |responses| ==> responses[i].Ok?
    ensures r.Ok? ==>
              r.value == Concat(Values(seq(|responses|, i requires 0 <= i < |responses| => Some(responses[i].value))))
    ensures r.Err? ==> exists k :: 0 <= k < |order| && FirstFailure(responses, order, k, r.error)
  {
    forall k | 0 <= k < |order| ensures order[k] < |responses| { assert order[k] in order; }
    var slots: seq<seq<Record>> := seq(|responses|, _ => []);
    var firstErr: Option<Failure> := None;
    for k := 0 to |order|
      invariant |slots| == |responses|
      invariant firstErr.None? ==>
                  forall j :: 0 <= j < k ==> responses[order[j]].Ok? && slots[order[j]] == responses[order[j]].value
      invariant firstErr.Some? ==> exists j :: 0 <= j < k && FirstFailure(responses, order, j, firstErr.value)
    {
      match responses[order[k]] {
        case Err(e) =>
          if firstErr.None? {
            firstErr := Some(e);
            assert FirstFailure(responses, order, k, e);
          }
        case Ok(records) => slots := slots[order[k] := records];
      }
    }
    if firstErr.Some? { return Err(firstErr.value); }
    forall i: nat | i < |responses| ensures responses[i].Ok? && slots[i] == responses[i].value {
      assert i in order;
      var j :| 0 <= j < |order| && order[j] == i;
    }
    assert slots == Values(seq(|responses|, i requires 0 <= i < |responses| => Some(responses[i].value)));
    var mapped: seq<Record> := [];
    for i := 0 to |slots|
      invariant mapped == Concat(slots[..i])
    {
      assert slots[..i + 1][..i] == slots[..i];
      mapped := mapped + slots[i];
    }
    assert slots[..|slots|] == slots;
    return Ok(mapped);
  }

  /** The `k`-th call to end is the first that failed. */
  ghost predicate FirstFailure(responses: seq<Result<seq<Record>, Failure>>, order: seq<nat>, k: nat, e: Failure) {
    && k < |order| && (forall j :: 0 <= j <= k ==> order[j] < |responses|)
    && responses[order[k]] == Err(e) && forall j :: 0 <= j < k ==> responses[order[j]].Ok?
  }

  type MapCall = (string, seq<Record>) -> Result<seq<Record>, Failure>
  type ReduceCall = (string, seq<Group>) -> Result<seq<Record>, Failure>

  /** `Coordinator.Run`: `mapCall` and `reduceCall` are what the named nodes answer, `order` the order in which that
      many map calls end, and `cancelled` whether the caller's context is done once they have. */
  method Run(wellFormed: bool, records: seq<Record>, mapTargets: seq<string>, reduceTarget: string,
             mapCall: MapCall, reduceCall: ReduceCall, order: nat -> seq<nat>, cancelled: bool)
    returns (r: Result<seq<Record>, Failure>, ghost groups: seq<Group>)
    requires forall n: nat, i: nat :: i < n <==> i in order(n)
    ensures RunReturns(wellFormed, records, mapTargets, reduceTarget, mapCall, reduceCall, cancelled, r, groups)
  {
    hide ValidNodeName, TrimSpace, DistinctTrimmed, IsGrouping, CapHolds, Splits, TargetsOk, Sent, SentTo;
    groups := [];
    if !wellFormed || |records| == 0 || |records| > MAX_RECORDS { return Err(InvalidRequest), groups; }
    var split := PartitionTargets(mapTargets, records);
    if split.Err? { return Err(InvalidRequest), groups; }
    var targets, pieces := split.value.0, split.value.1;
    TargetsNonEmpty(mapTargets);
    var target := TrimSpace(reduceTarget);
    SomePart(records, pieces);
    if target == "" { target := targets[0]; }
    if !ValidNodeName(target) { return Err(InvalidRequest), groups; }
    var fanout := |(set t | t in targets) + {target}|;
    if fanout > MAX_FANOUT { return Err(LimitExceeded), groups; }
    var mapped := CallMapped(targets, pieces, mapCall, order(|pieces|));
    if mapped.Err? { return Err(mapped.error), groups; }
    if cancelled { return Err(Cancelled), groups; }
    var grouped := GroupRecords(mapped.value, MAX_VALUES_PER_GROUP);
    if grouped.Err? { return Err(grouped.error), groups; }
    groups := grouped.value;
    r := reduceCall(target, grouped.value);
  }

  /** What `Run` returns: the refusal of a bad job, the failure of a map call, the caller's cancellation, too many
      values for a key, or the reducer's answer to the grouping of all that was mapped. */
  ghost predicate RunReturns(wellFormed: bool, records: seq<Record>, mapTargets: seq<string>, reduceTarget: string,
                             mapCall: MapCall, reduceCall: ReduceCall, cancelled: bool,
                             r: Result<seq<Record>, Failure>, groups: seq<Group>) {
    var refusal := Refusal(wellFormed, records, mapTargets, reduceTarget);
    if refusal.Some? then r == Err(refusal.value)
    else
      var names, parts := SentTo(mapTargets, records), Sent(mapTargets, records);
      if !AllAnswer(mapCall, names, parts) then r.Err? && SomeCallFails(mapCall, names, parts, r.error)
      else if cancelled then r == Err(Cancelled)
      else
        var mapped := Concat(Answers(mapCall, names, parts));
        if !CapHolds(mapped, MAX_VALUES_PER_GROUP) then r == Err(LimitExceeded)
        else IsGrouping(mapped, groups) && r == reduceCall(Reducer(mapTargets, records, reduceTarget), groups)
  }

  method CallMapped(targets: seq<string>, pieces: seq<seq<Record>>,
                    mapCall: MapCall, order: seq<nat>)
    returns (r: Result<seq<Record>, Failure>)
    requires |targets| == |pieces| && forall i: nat :: i < |pieces| <==> i in order
    ensures r.Ok? <==> AllAnswer(mapCall, targets, pieces)
    ensures r.Ok? ==> r.value == Concat(Answers(mapCall, targets, pieces))
    ensures r.Err? ==> SomeCallFails(mapCall, targets, pieces, r.error)
  {
    hide Concat;
    var responses := seq(|pieces|, i requires 0 <= i < |pieces| => mapCall(targets[i], pieces[i]));
    r := GatherMapped(responses, order);
    if r.Ok? {
      forall i | 0 <= i < |pieces| ensures mapCall(targets[i], pieces[i]).Ok? { assert responses[i].Ok?; }
      assert Values(seq(|responses|, i requires 0 <= i < |responses| => Some(responses[i].value)))
          == Answers(mapCall, targets, pieces);
    } else {
      ghost var k :| 0 <= k < |order| && FirstFailure(responses, order, k, r.error);
      assert mapCall(targets[order[k]], pieces[order[k]]) == Err(r.error);
    }
  }

  lemma TargetsNonEmpty(raw: seq<string>)
    requires TargetsOk(raw)
    ensures DistinctTrimmed(raw) != []
  {
    hide DistinctTrimmed;
  }

  /** The node that reduces: the one named, or else the first that maps. */
  function Reducer(mapTargets: seq<string>, records: seq<Record>, reduceTarget: string): string
    requires DistinctTrimmed(mapTargets) != []
  {
    var names := SentTo(mapTargets, records);
    if !Blank(reduceTarget) || names == [] then TrimSpace(reduceTarget) else names[0]
  }

  /** The checks before anything is sent; `None` when they pass. */
  function Refusal(wellFormed: bool, records: seq<Record>, mapTargets: seq<string>, reduceTarget: string)
    : (refusal: Option<Failure>)
    ensures refusal == None ==> TargetsOk(mapTargets) && records != []
  {
    if !wellFormed || records == [] || |records| > MAX_RECORDS || !TargetsOk(mapTargets) then Some(InvalidRequest)
    else
      var reducer := Reducer(mapTargets, records, reduceTarget);
      if !ValidNodeName(reducer) then Some(InvalidRequest)
      else if |(set t | t in SentTo(mapTargets, records)) + {reducer}| > MAX_FANOUT then Some(LimitExceeded)
      else None
  }

  /** Between 1 and 256 characters once trimmed, none of them below 32 or 127. */
  lemma NodeNameExactly(name: string)
    ensures var n := TrimSpace(name);
            ValidNodeName(name) <==> 0 < |n| <= 256 && forall i :: 0 <= i < |n| ==> 32 <= n[i] as int != 127
  {
    hide TrimSpace;
    var n := TrimSpace(name);
    if forall i :: 0 <= i < |n| ==> 32 <= n[i] as int != 127 {
      assert forall c :: c in n ==> !IsControl(c);
    }
    if forall c :: c in n ==> !IsControl(c) {
      forall i | 0 <= i < |n| ensures 32 <= n[i] as int != 127 { assert n[i] in n; }
    }
  }

  /** A job is sent exactly when its request is well formed, it has at least one and at most 4096 records, every target
      that is not blank is a node name and there are at least one and at most 64 different ones, the reducer is one too
      if it is named, and together with the targets that are sent something it makes at most 64 nodes. */
  lemma RefusalExactly(wellFormed: bool, records: seq<Record>, mapTargets: seq<string>, reduceTarget: string)
    ensures Refusal(wellFormed, records, mapTargets, reduceTarget) == None
       <==> && wellFormed && 1 <= |records| <= 4096 && (forall t :: t in mapTargets ==> Blank(t) || ValidNodeName(t))
            && 1 <= |DistinctTrimmed(mapTargets)| <= 64 && (Blank(reduceTarget) || ValidNodeName(reduceTarget))
            && (Blank(reduceTarget) || |records| < 64 || |DistinctTrimmed(mapTargets)| < 64
                || TrimSpace(reduceTarget) in DistinctTrimmed(mapTargets))
  {
    hide ValidNodeName, TrimSpace, DistinctTrimmed, SentTo;
    if wellFormed && 1 <= |records| <= MAX_RECORDS && TargetsOk(mapTargets) {
      var targets := DistinctTrimmed(mapTargets);
      var k := if |records| < |targets| then |records| else |targets|;
      SentExactly(mapTargets, records);
      DistinctTrimmedSpec(mapTargets);
      NodesOfPrefix(targets, k);
      var names := set t | t in targets[..k];
      var reducer := Reducer(mapTargets, records, reduceTarget);
      assert |names + {reducer}| == k + if reducer in names then 0 else 1 by {
        if reducer in names { assert names + {reducer} == names; }
      }
      assert (set t | t in SentTo(mapTargets, records)) == names;
      TargetIsName(mapTargets);
      TrimmedName(reduceTarget);
      if Blank(reduceTarget) { assert reducer == targets[0] && targets[..k][0] == targets[0]; }
      if k == |targets| { assert targets[..k] == targets; }
    }
  }

  lemma {:induction false} NodesOfPrefix(targets: seq<string>, k: nat)
    requires k <= |targets| && forall i, j :: 0 <= i < j < |targets| ==> targets[i] != targets[j]
    ensures |set t | t in targets[..k]| == k
  {
    if k > 0 {
      NodesOfPrefix(targets, k - 1);
      var front := targets[..k - 1];
      assert targets[..k] == front + [targets[k - 1]];
      assert (set t | t in targets[..k]) == (set t | t in front) + {targets[k - 1]};
    }
  }

  lemma TrimmedName(name: string)
    ensures ValidNodeName(TrimSpace(name)) <==> ValidNodeName(name)
  {
    hide TrimSpace;
    TrimIdempotent(name);
  }

  lemma TargetIsName(raw: seq<string>)
    requires DistinctTrimmed(raw) != [] && forall t :: t in raw ==> Blank(t) || ValidNodeName(t)
    ensures ValidNodeName(DistinctTrimmed(raw)[0])
  {
    hide ValidNodeName, TrimSpace, DistinctTrimmed;
    var x := DistinctTrimmed(raw)[0];
    assert x in DistinctTrimmed(raw);
    DistinctTrimmedMembers(raw, x);
    var i :| 0 <= i < |raw| && TrimSpace(raw[i]) == x;
    assert raw[i] in raw;
    TrimmedName(raw[i]);
  }

  ghost predicate AllAnswer(mapCall: MapCall, names: seq<string>,
                            parts: seq<seq<Record>>) {
    |names| == |parts| && forall i :: 0 <= i < |parts| ==> mapCall(names[i], parts[i]).Ok?
  }

  ghost predicate SomeCallFails(mapCall: MapCall, names: seq<string>,
                                parts: seq<seq<Record>>, e: Failure) {
    exists i :: 0 <= i < |parts| && i < |names| && mapCall(names[i], parts[i]) == Err(e)
  }

  ghost function Answers(mapCall: MapCall, names: seq<string>,
                         parts: seq<seq<Record>>): seq<seq<Record>>
    requires AllAnswer(mapCall, names, parts)
  {
    seq(|parts|, i requires 0 <= i < |parts| => mapCall(names[i], parts[i]).value)
  }

  lemma SomePart(records: seq<Record>, parts: seq<seq<Record>>)
    requires records != [] && Splits(records, parts)
    ensures parts != []
  {
    assert |multiset(records)| == |records| && |multiset(Concat(parts))| == |Concat(parts)|;
  }

  /** What a job's calls can return: every target maps its part, and the reduce target reduces the grouping of what
      they returned. */
  ghost predicate JobReturns(nodes: seq<Node>, reducer: Node, records: seq<Record>, parts: seq<seq<Record>>,
                             out: seq<Record>) {
    exists mapped, groups :: JobRun(nodes, reducer, records, parts, mapped, groups, out)
  }

  ghost predicate JobRun(nodes: seq<Node>, reducer: Node, records: seq<Record>, parts: seq<seq<Record>>,
                         mapped: seq<seq<Record>>, groups: seq<Group>, out: seq<Record>) {
    && Splits(records, parts) && |nodes| == |parts| == |mapped|
    && (forall i :: 0 <= i < |parts| ==> ExecuteMap(nodes[i], parts[i], Ok(mapped[i])))
    && CapHolds(Concat(mapped), MAX_VALUES_PER_GROUP) && IsGrouping(Concat(mapped), groups)
    && ExecuteReduce(reducer, groups, Ok(out))
  }

  // ---------------------------------------------------------------------------------------------
  // The job against a single node

  /** The reducer gives the same record whatever the order of a group's values. */
  ghost predicate OrderInsensitive(f: ReduceFn) {
    forall k, v, w :: multiset(v) == multiset(w) ==> f(Group(k, v)) == f(Group(k, w))
  }

  lemma {:induction false} FlatMapConcat(f: MapFn, a: seq<Record>, b: seq<Record>)
    ensures FlatMap(f, a + b) == FlatMap(f, a) + FlatMap(f, b)
    decreases |b|
  {
    hide MapOne;
    if b == [] {
      assert a + b == a;
    } else {
      assert (a + b)[..|a + b| - 1] == a + b[..|b| - 1];
      FlatMapConcat(f, a, b[..|b| - 1]);
    }
  }

  /** Joining what the parts map to is mapping the joined parts. */
  lemma {:induction false} MappedJoin(f: MapFn, parts: seq<seq<Record>>, mapped: seq<seq<Record>>)
    requires |parts| == |mapped| && forall i :: 0 <= i < |parts| ==> mapped[i] == FlatMap(f, parts[i])
    ensures Concat(mapped) == FlatMap(f, Concat(parts))
  {
    hide MapOne;
    if parts != [] {
      var n := |parts| - 1;
      MappedJoin(f, parts[..n], mapped[..n]);
      FlatMapConcat(f, Concat(parts[..n]), parts[n]);
    }
  }

  function Without<T>(s: seq<T>, k: nat): seq<T>
    requires k < |s|
  {
    s[..k] + s[k + 1..]
  }

  lemma BagWithout<T>(s: seq<T>, k: nat)
    requires k < |s|
    ensures multiset(Without(s, k)) == multiset(s) - multiset{s[k]}
  {
    assert s == s[..k] + [s[k]] + s[k + 1..];
  }

  lemma BagMiddle<T>(left: seq<T>, middle: seq<T>, right: seq<T>)
    ensures multiset(left + middle + right) == multiset(left + right) + multiset(middle)
  {}

  lemma FlatMapSnoc(f: MapFn, left: seq<Record>, r: Record)
    ensures FlatMap(f, left + [r]) == FlatMap(f, left) + MapOne(f, r)
  {
    hide MapOne;
    assert (left + [r])[..|left|] == left;
  }

  lemma FlatMapMiddle(f: MapFn, left: seq<Record>, r: Record, right: seq<Record>)
    ensures multiset(FlatMap(f, (left + [r]) + right)) == multiset(FlatMap(f, left + right)) + multiset(MapOne(f, r))
  {
    hide MapOne, FlatMap;
    FlatMapSnoc(f, left, r);
    FlatMapConcat(f, left + [r], right);
    FlatMapConcat(f, left, right);
    BagMiddle(FlatMap(f, left), MapOne(f, r), FlatMap(f, right));
  }

  lemma FlatMapWithout(f: MapFn, b: seq<Record>, k: nat)
    requires k < |b|
    ensures multiset(FlatMap(f, b)) == multiset(FlatMap(f, Without(b, k))) + multiset(MapOne(f, b[k]))
  {
    hide MapOne, FlatMap;
    assert b == (b[..k] + [b[k]]) + b[k + 1..];
    FlatMapMiddle(f, b[..k], b[k], b[k + 1..]);
  }

  /** What records map to depends, as a bag, only on the bag of records. */
  lemma {:induction false} FlatMapBag(f: MapFn, a: seq<Record>, b: seq<Record>)
    requires multiset(a) == multiset(b)
    ensures multiset(FlatMap(f, a)) == multiset(FlatMap(f, b))
    decreases |a|
  {
    hide MapOne, Without;
    if a == [] {
      assert |b| == |multiset(b)| == 0;
    } else {
      var n := |a| - 1;
      assert a[n] in multiset(b);
      var k :| 0 <= k < |b| && b[k] == a[n];
      BagWithout(a, n);
      BagWithout(b, k);
      FlatMapWithout(f, a, n);
      FlatMapWithout(f, b, k);
      DropsOne(a, n);
      FlatMapBag(f, Without(a, n), Without(b, k));
    }
  }

  lemma DropsOne<T>(s: seq<T>, k: nat)
    requires k < |s|
    ensures |Without(s, k)| == |s| - 1
  {}

  /** What the targets return together is, as a bag, what a single node maps. */
  lemma JobMapsSameBag(nodes: seq<Node>, f: MapFn, records: seq<Record>, parts: seq<seq<Record>>,
                       mapped: seq<seq<Record>>)
    requires Splits(records, parts) && |nodes| == |parts| == |mapped|
    requires forall i :: 0 <= i < |nodes| ==> nodes[i].mapFn == f && ExecuteMap(nodes[i], parts[i], Ok(mapped[i]))
    ensures multiset(Concat(mapped)) == multiset(FlatMap(f, records))
  {
    hide MapReturns, NormalRecords, CheckedMap;
    forall i | 0 <= i < |parts| ensures mapped[i] == FlatMap(f, parts[i]) {
      MapRefinesFlatMap(f, parts[i], nodes[i].workers, nodes[i].limits.value, mapped[i]);
    }
    MappedJoin(f, parts, mapped);
    FlatMapBag(f, Concat(parts), records);
  }

  /** Whenever a distributed job and a single-node run of the same plugin both succeed, they return the same records
      in the same order, whatever the targets, their limits, their workers and the order in which calls end. */
  lemma JobMatchesSingleNode(nodes: seq<Node>, reducer: Node, single: Node, records: seq<Record>,
                             parts: seq<seq<Record>>, out: seq<Record>, local: seq<Record>)
    requires forall i :: 0 <= i < |nodes| ==> nodes[i].mapFn == single.mapFn
    requires reducer.reduceFn == single.reduceFn && OrderInsensitive(single.reduceFn)
    requires JobReturns(nodes, reducer, records, parts, out) && ExecuteRun(single, records, Ok(local))
    ensures out == local
  {
    hide ExecuteMap, ExecuteRun, ReduceReturns, NormalGroups, IsGrouping, CapHolds, OrderInsensitive, Splits;
    var mapped: seq<seq<Record>>, groups: seq<Group> :| JobRun(nodes, reducer, records, parts, mapped, groups, out);
    var f := single.reduceFn;
    JobMapsSameBag(nodes, single.mapFn, records, parts, mapped);
    RunRefinesSequential(single, records, local);
    var localGroups :| IsGrouping(FlatMap(single.mapFn, records), localGroups) && |local| == |localGroups|
                       && forall i :: 0 <= i < |local| ==> Some(local[i]) == f(localGroups[i]);
    GroupingOrderFree(Concat(mapped), FlatMap(single.mapFn, records), groups, localGroups);
    ReduceRefinesReduceAll(f, groups, reducer.workers, reducer.limits.value, out);
    GroupedIsSorted(Concat(mapped), groups);
    forall i | 0 <= i < |out| ensures out[i] == local[i] {
      SameGroupSameRecord(f, groups[i], localGroups[i]);
    }
  }

  /** What a job is sent is the whole of its records, in nonempty parts. */
  lemma SentSplits(raw: seq<string>, records: seq<Record>)
    requires DistinctTrimmed(raw) != []
    ensures Splits(records, Sent(raw, records))
  {
    hide DistinctTrimmed;
    var m := |DistinctTrimmed(raw)|;
    DealConserves(records, m);
    CompactKeepsConcat(Deal(records, m));
    CompactNonEmpty(Deal(records, m));
  }

  /** The calls that `Run` makes are answered by engines: `nodes[i]` is the engine of the `i`-th target as its policy
      treats that call, and `reducer` that of the reduce target as its policy treats the reduce call. */
  ghost predicate AnsweredByEngines(records: seq<Record>, mapTargets: seq<string>, reduceTarget: string,
                                    mapCall: MapCall, reduceCall: ReduceCall, groups: seq<Group>, nodes: seq<Node>,
                                    reducer: Node) {
    && DistinctTrimmed(mapTargets) != []
    && var names, parts := SentTo(mapTargets, records), Sent(mapTargets, records);
       && |nodes| == |parts|
       && (forall i :: 0 <= i < |parts| ==> ExecuteMap(nodes[i], parts[i], mapCall(names[i], parts[i])))
       && ExecuteReduce(reducer, groups, reduceCall(Reducer(mapTargets, records, reduceTarget), groups))
  }

  /** Every successful `Run`, over any raw targets, returns what a successful run on a single node returns, record by
      record, when the engines it calls run the single node's plugin; their policies, limits and workers may differ from
      node to node and from call to call, and nothing is asked of any other node or call. */
  lemma RunMatchesSingleNode(wellFormed: bool, records: seq<Record>, mapTargets: seq<string>, reduceTarget: string,
                             mapCall: MapCall, reduceCall: ReduceCall, cancelled: bool, out: seq<Record>,
                             groups: seq<Group>, nodes: seq<Node>, reducer: Node, single: Node, local: seq<Record>)
    requires RunReturns(wellFormed, records, mapTargets, reduceTarget, mapCall, reduceCall, cancelled, Ok(out), groups)
    requires AnsweredByEngines(records, mapTargets, reduceTarget, mapCall, reduceCall, groups, nodes, reducer)
    requires forall i :: 0 <= i < |nodes| ==> nodes[i].mapFn == single.mapFn
    requires reducer.reduceFn == single.reduceFn && OrderInsensitive(single.reduceFn)
    requires ExecuteRun(single, records, Ok(local))
    ensures out == local
  {
    hide ExecuteMap, ExecuteReduce, ExecuteRun, IsGrouping, CapHolds, Splits, OrderInsensitive, TargetsOk, SentTo, Sent;
    var names, parts := SentTo(mapTargets, records), Sent(mapTargets, records);
    SentSplits(mapTargets, records);
    var mapped := Answers(mapCall, names, parts);
    forall i | 0 <= i < |parts| ensures ExecuteMap(nodes[i], parts[i], Ok(mapped[i])) {
      assert mapCall(names[i], parts[i]) == Ok(mapped[i]);
    }
    assert JobRun(nodes, reducer, records, parts, mapped, groups, out);
    JobMatchesSingleNode(nodes, reducer, single, records, parts, out, local);
  }

  lemma SameGroupSameRecord(f: ReduceFn, g: Group, h: Group)
    requires OrderInsensitive(f) && g.key == h.key && multiset(g.values) == multiset(h.values)
    ensures f(g) == f(h)
  {
    assert g == Group(g.key, g.values) && h == Group(g.key, h.values);
  }

  // ---------------------------------------------------------------------------------------------
  // When a job succeeds

  /** The node maps this part: the request is in order, its policy admits it, every record maps, the output fits. */
  ghost predicate Maps(node: Node, part: seq<Record>) {
    && NormalRecords(part) && node.limits.Some? && AllMap(node.mapFn, part)
    && Within(FlatMap(node.mapFn, part), node.limits.value)
  }

  lemma MapCallExact(node: Node, part: seq<Record>, out: seq<Record>)
    requires node.workers > 0
    ensures ExecuteMap(node, part, Ok(out)) <==> Maps(node, part) && out == FlatMap(node.mapFn, part)
  {
    hide MapReturns, AllMap, FlatMap, Within;
    if node.limits.Some? { MapRefinesFlatMap(node.mapFn, part, node.workers, node.limits.value, out); }
  }

  /** The node reduces these groups to `out`, one record for each. */
  ghost predicate Reduces(node: Node, groups: seq<Group>, out: seq<Record>) {
    && NormalGroups(groups) && node.limits.Some? && AllReduce(node.reduceFn, node.limits.value, groups)
    && Within(out, node.limits.value) && |out| == |groups|
    && forall i :: 0 <= i < |out| ==> Some(out[i]) == node.reduceFn(groups[i])
  }

  lemma ReduceCallExact(node: Node, records: seq<Record>, groups: seq<Group>, out: seq<Record>)
    requires node.workers > 0 && IsGrouping(records, groups)
    ensures ExecuteReduce(node, groups, Ok(out)) <==> Reduces(node, groups, out)
  {
    hide ReduceReturns, AllReduce, Within, NormalGroups, IsGrouping;
    GroupedIsSorted(records, groups);
    if node.limits.Some? {
      ReduceRefinesReduceAll(node.reduceFn, groups, node.workers, node.limits.value, out);
      assert forall i :: 0 <= i < |groups| ==> ReduceAll(node.reduceFn, groups)[i] == node.reduceFn(groups[i]);
    }
  }

  /** A job over a split of the records can return `out` exactly when every node maps its part, no key gets too many
      values, and the reducer reduces the grouping of the flat-map of the joined parts to `out`. */
  lemma JobReturnsExactly(nodes: seq<Node>, reducer: Node, f: MapFn, records: seq<Record>, parts: seq<seq<Record>>,
                          out: seq<Record>)
    requires Splits(records, parts) && |nodes| == |parts| && reducer.workers > 0
    requires forall i :: 0 <= i < |nodes| ==> nodes[i].mapFn == f && nodes[i].workers > 0
    ensures JobReturns(nodes, reducer, records, parts, out) <==>
              && (forall i :: 0 <= i < |parts| ==> Maps(nodes[i], parts[i]))
              && CapHolds(FlatMap(f, Concat(parts)), MAX_VALUES_PER_GROUP)
              && exists groups :: IsGrouping(FlatMap(f, Concat(parts)), groups) && Reduces(reducer, groups, out)
  {
    hide ExecuteMap, ExecuteReduce, IsGrouping, CapHolds, Splits, Maps, Reduces, FlatMap, Concat;
    if JobReturns(nodes, reducer, records, parts, out) {
      var mapped: seq<seq<Record>>, groups: seq<Group> :| JobRun(nodes, reducer, records, parts, mapped, groups, out);
      forall i | 0 <= i < |parts| ensures Maps(nodes[i], parts[i]) && mapped[i] == FlatMap(f, parts[i]) {
        MapCallExact(nodes[i], parts[i], mapped[i]);
      }
      MappedJoin(f, parts, mapped);
      ReduceCallExact(reducer, Concat(mapped), groups, out);
    }
    if (forall i :: 0 <= i < |parts| ==> Maps(nodes[i], parts[i]))
       && CapHolds(FlatMap(f, Concat(parts)), MAX_VALUES_PER_GROUP)
       && exists groups :: IsGrouping(FlatMap(f, Concat(parts)), groups) && Reduces(reducer, groups, out) {
      var groups :| IsGrouping(FlatMap(f, Concat(parts)), groups) && Reduces(reducer, groups, out);
      var mapped := seq(|parts|, i requires 0 <= i < |parts| => FlatMap(f, parts[i]));
      forall i | 0 <= i < |parts| ensures ExecuteMap(nodes[i], parts[i], Ok(mapped[i])) {
        MapCallExact(nodes[i], parts[i], mapped[i]);
      }
      MappedJoin(f, parts, mapped);
      ReduceCallExact(reducer, Concat(mapped), groups, out);
      assert JobRun(nodes, reducer, records, parts, mapped, groups, out);
    }
  }

  /** A job that succeeds mapped something: its reduce request needs a group. */
  lemma JobNeedsRecords(nodes: seq<Node>, reducer: Node, f: MapFn, records: seq<Record>, parts: seq<seq<Record>>,
                        out: seq<Record>)
    requires forall i :: 0 <= i < |nodes| ==> nodes[i].mapFn == f
    requires JobReturns(nodes, reducer, records, parts, out)
    ensures FlatMap(f, records) != []
  {
    hide ExecuteMap, ReduceReturns, IsGrouping, CapHolds, Splits;
    var mapped: seq<seq<Record>>, groups: seq<Group> :| JobRun(nodes, reducer, records, parts, mapped, groups, out);
    JobMapsSameBag(nodes, f, records, parts, mapped);
    assert GroupKeys(groups)[0] == groups[0].key;
    KeyHasValues(Concat(mapped), groups, groups[0].key);
    assert |Concat(mapped)| == |multiset(Concat(mapped))| == |FlatMap(f, records)|;
  }

  /** The one systematic difference: when nothing is mapped a job always fails, because its reduce request holds no
      group, while a single node answers with no records. */
  lemma EmptyMappingDiffers(nodes: seq<Node>, reducer: Node, single: Node, records: seq<Record>,
                            parts: seq<seq<Record>>)
    requires forall i :: 0 <= i < |nodes| ==> nodes[i].mapFn == single.mapFn
    requires FlatMap(single.mapFn, records) == [] && AllMap(single.mapFn, records) && NormalRecords(records)
    requires single.workers > 0 && single.limits.Some?
    requires single.limits.value.maxOutputRecords >= 0 && single.limits.value.maxOutputBytes >= 0
    ensures forall out :: !JobReturns(nodes, reducer, records, parts, out)
    ensures ExecuteRun(single, records, Ok([]))
  {
    hide NormalRecords, AllMap, MapReturns, ReduceReturns, JobReturns;
    forall out ensures !JobReturns(nodes, reducer, records, parts, out) {
      if JobReturns(nodes, reducer, records, parts, out) {
        JobNeedsRecords(nodes, reducer, single.mapFn, records, parts, out);
      }
    }
    var limits := single.limits.value;
    MapRefinesFlatMap(single.mapFn, records, single.workers, limits, []);
    assert IsGrouping([], []);
    ReduceRefinesReduceAll(single.reduceFn, [], single.workers, limits, []);
    assert GroupAndReduce(single, limits, [], Ok([]));
  }
}
