/** Anchor statements and receipts, and the N-of-M threshold decision over distinct providers. */
module AnchorPolicy {
  import opened Results
  import opened Text
  import opened Evidence

  type QueueHead = Head<string>
  type Receipt = AnchorReceipt<string>

  const ANCHOR_VERSION := "weaverssh.evidence-anchor.v1"

  datatype AnchorError = InvalidAnchor | AnchorMismatch | AnchorNotCommitted | AnchorThreshold

  /** A provider's name and its verdict on a receipt for a head. */
  datatype Provider = Provider(name: string, verifies: (QueueHead, Receipt) -> bool)

  datatype Policy = Policy(providers: map<string, Provider>, threshold: int)

  function StatementOf(h: QueueHead): AnchorStatement<string> {
    AnchorStatement(ANCHOR_VERSION, TrimSpace(h.streamID), h.sequence, LowerTrim(h.statementSHA256))
  }

  /** `NewAnchorStatement` succeeds. */
  predicate Anchorable(h: QueueHead) {
    !Blank(h.streamID) && h.sequence != 0 && IsSHA256(LowerTrim(h.statementSHA256))
  }

  /** `AnchorReceipt.ValidateFor`: `None` when the receipt is for this provider and head. */
  function ReceiptFault(r: Receipt, provider: string, h: QueueHead): Option<AnchorError> {
    if !Anchorable(h) then Some(InvalidAnchor)
    else if r.version != ANCHOR_VERSION || TrimSpace(r.provider) != TrimSpace(provider) || r.statement != StatementOf(h)
    then Some(AnchorMismatch)
    else if Blank(r.externalID) || !IsSHA256(r.proofSHA256) then Some(InvalidAnchor)
    else if !r.committed then Some(AnchorNotCommitted)
    else None
  }

  /** A receipt stands for a provider and head exactly when it is committed, names the provider and, in their trimmed
      and lower-case form, the head's own stream, sequence and digest, and carries an external identifier and a proof.
      */
  lemma ReceiptStandsExactly(r: Receipt, provider: string, h: QueueHead)
    ensures ReceiptFault(r, provider, h) == None
       <==> && r.version == "weaverssh.evidence-anchor.v1" && TrimSpace(r.provider) == TrimSpace(provider)
            && r.statement == AnchorStatement("weaverssh.evidence-anchor.v1", TrimSpace(h.streamID), h.sequence,
                                              LowerTrim(h.statementSHA256))
            && TrimSpace(h.streamID) != "" && h.sequence >= 1 && IsSHA256(LowerTrim(h.statementSHA256))
            && TrimSpace(r.externalID) != "" && IsSHA256(r.proofSHA256) && r.committed
    ensures Anchorable(h) && r.statement != StatementOf(h) ==> ReceiptFault(r, provider, h) == Some(AnchorMismatch)
  {
    hide TrimSpace, LowerTrim, IsSHA256;
  }

  /** No receipt serves two heads or two providers. */
  lemma ReceiptFitsOneHead(r: Receipt, p: string, q: string, g: QueueHead, h: QueueHead)
    requires ReceiptFault(r, p, g) == None && ReceiptFault(r, q, h) == None
    ensures TrimSpace(p) == TrimSpace(q) && g.sequence == h.sequence
    ensures TrimSpace(g.streamID) == TrimSpace(h.streamID)
    ensures LowerTrim(g.statementSHA256) == LowerTrim(h.statementSHA256)
  {
    hide ReceiptFault, TrimSpace, LowerTrim;
    ReceiptStandsExactly(r, p, g);
    ReceiptStandsExactly(r, q, h);
  }

  /** A usable policy: between one and all of its providers must agree, and each is filed under its own name. */
  ghost predicate ValidPolicy(p: Policy) {
    && 1 <= p.threshold <= |p.providers|
    && forall n :: n in p.providers ==> n != "" && TrimSpace(p.providers[n].name) == n
  }

  /** The trimmed name of a configured provider; the empty text if there is none. */
  function NameOf(p: Option<Provider>): string { if p.Some? then TrimSpace(p.value.name) else "" }

  predicate Named(providers: seq<Option<Provider>>) {
    forall i :: 0 <= i < |providers| ==> providers[i].Some? && NameOf(providers[i]) != ""
  }

  predicate Distinct(providers: seq<Option<Provider>>) {
    forall i, j :: 0 <= i < j < |providers| ==> NameOf(providers[i]) != NameOf(providers[j])
  }

  /** The map holds the providers under their names and nothing else. */
  ghost predicate Holds(m: map<string, Provider>, providers: seq<Option<Provider>>) {
    && |m| == |providers|
    && (forall i :: 0 <= i < |providers| ==> NameOf(providers[i]) in m && Some(m[NameOf(providers[i])]) == providers[i])
    && forall n :: n in m ==> n != "" && NameOf(Some(m[n])) == n && Some(m[n]) in providers
  }

  method NewAnchorThresholdPolicy(providers: seq<Option<Provider>>, threshold: int)
    returns (r: Result<Policy, AnchorError>)
    ensures r.Ok? <==> 1 <= threshold <= |providers| && Named(providers) && Distinct(providers)
    ensures r.Ok? ==> ValidPolicy(r.value) && r.value.threshold == threshold && Holds(r.value.providers, providers)
    ensures r.Err? ==> r.error == if 1 <= threshold <= |providers| then InvalidAnchor else AnchorThreshold
  {
    hide TrimSpace, Holds, Distinct;
    if threshold <= 0 || threshold > |providers| { return Err(AnchorThreshold); }
    var m: map<string, Provider> := map[];
    NothingHeld();
    assert providers[..0] == [];
    for i := 0 to |providers|
      invariant Named(providers[..i]) && Distinct(providers[..i]) && Holds(m, providers[..i])
    {
      if providers[i].None? { return Err(InvalidAnchor); }
      var name := TrimSpace(providers[i].value.name);
      if name == "" {
        assert NameOf(providers[i]) == "";
        return Err(InvalidAnchor);
      }
      OneMore(m, providers, i);
      if name in m { return Err(InvalidAnchor); }
      m := m[name := providers[i].value];
    }
    assert providers[..|providers|] == providers;
    HeldIsValid(m, providers, threshold);
    return Ok(Policy(m, threshold));
  }

  lemma NothingHeld()
    ensures Holds(map[], []) && Distinct([])
  {}

  lemma HeldIsValid(m: map<string, Provider>, providers: seq<Option<Provider>>, threshold: int)
    requires Holds(m, providers) && 1 <= threshold <= |providers|
    ensures ValidPolicy(Policy(m, threshold))
  {
    hide TrimSpace;
    forall n | n in m ensures n != "" && TrimSpace(m[n].name) == n { assert NameOf(Some(m[n])) == n; }
  }

  lemma OneMore(m: map<string, Provider>, providers: seq<Option<Provider>>, i: nat)
    requires i < |providers| && Holds(m, providers[..i]) && Distinct(providers[..i])
    requires providers[i].Some? && NameOf(providers[i]) != ""
    ensures NameOf(providers[i]) in m ==> !Distinct(providers)
    ensures NameOf(providers[i]) !in m ==>
              Distinct(providers[..i + 1]) && Holds(m[NameOf(providers[i]) := providers[i].value], providers[..i + 1])
  {
    hide TrimSpace;
    var name := NameOf(providers[i]);
    if name in m {
      var j :| 0 <= j < i && providers[..i][j] == Some(m[name]);
      assert NameOf(providers[j]) == name;
    } else {
      var before, after := providers[..i], providers[..i + 1];
      assert after == before + [providers[i]];
      forall j | 0 <= j < i ensures NameOf(after[j]) in m && Some(m[NameOf(after[j])]) == after[j] {
        assert before[j] == after[j];
      }
    }
  }

  // ---------------------------------------------------------------------------------------------
  // Counting verified providers

  function Signer(r: Receipt): string { TrimSpace(r.provider) }

  /** Receipt `i` is the first one naming its provider. */
  predicate IsFirst(receipts: seq<Receipt>, i: nat)
    requires i < |receipts|
  {
    forall j :: 0 <= j < i ==> Signer(receipts[j]) != Signer(receipts[i])
  }

  /** The receipt's provider is configured and verifies it. */
  predicate Counts(p: Policy, h: QueueHead, r: Receipt) {
    Signer(r) != "" && Signer(r) in p.providers && p.providers[Signer(r)].verifies(h, r)
  }

  /** The configured providers whose first receipt in the list they verify. */
  function VerifiedBy(p: Policy, h: QueueHead, receipts: seq<Receipt>): set<string> {
    set i | 0 <= i < |receipts| && IsFirst(receipts, i) && Counts(p, h, receipts[i]) :: Signer(receipts[i])
  }

  lemma VerifiedByAppend(p: Policy, h: QueueHead, receipts: seq<Receipt>, r: Receipt)
    ensures VerifiedBy(p, h, receipts + [r]) == VerifiedBy(p, h, receipts) +
              if (forall j :: 0 <= j < |receipts| ==> Signer(receipts[j]) != Signer(r)) && Counts(p, h, r)
              then {Signer(r)} else {}
  {
    hide Counts, Signer;
    var longer := receipts + [r];
    assert forall i :: 0 <= i < |receipts| ==> longer[i] == receipts[i] && IsFirst(longer, i) == IsFirst(receipts, i);
    assert longer[|receipts|] == r;
    assert IsFirst(longer, |receipts|) <==> forall j :: 0 <= j < |receipts| ==> Signer(receipts[j]) != Signer(r);
    forall n | n in VerifiedBy(p, h, receipts) ensures n in VerifiedBy(p, h, longer) {
      var i :| 0 <= i < |receipts| && IsFirst(receipts, i) && Counts(p, h, receipts[i]) && n == Signer(receipts[i]);
      assert IsFirst(longer, i) && Counts(p, h, longer[i]);
    }
  }

  datatype Report = Report(required: int, valid: nat, providers: seq<string>)

  /** The policy's verdict: enough distinct providers verify their receipts for an anchorable head. */
  predicate ThresholdMet(p: Policy, h: QueueHead, receipts: seq<Receipt>) {
    Anchorable(h) && |VerifiedBy(p, h, receipts)| >= p.threshold
  }

  method Verify(p: Policy, h: QueueHead, receipts: seq<Receipt>) returns (report: Report, r: Option<AnchorError>)
    ensures r.None? <==> ThresholdMet(p, h, receipts)
    ensures r.Some? ==> r.value == if Anchorable(h) then AnchorThreshold else InvalidAnchor
    ensures report.required == p.threshold
    ensures Anchorable(h) ==>
              && report.valid == |VerifiedBy(p, h, receipts)| && StrictlySorted(report.providers)
              && forall n :: n in report.providers <==> n in VerifiedBy(p, h, receipts)
  {
    hide Counts, Anchorable, Signer, VerifiedBy, Noted;
    report := Report(p.threshold, 0, []);
    if !Anchorable(h) { return report, Some(InvalidAnchor); }
    NoneVerified(p, h);
    assert receipts[..0] == [];
    var seen: set<string> := {};
    var valid: set<string> := {};
    for i := 0 to |receipts|
      invariant Noted(seen, receipts[..i])
      invariant valid == VerifiedBy(p, h, receipts[..i])
      invariant report.valid == |valid|
      invariant report.required == p.threshold
    {
      var receipt := receipts[i];
      var name := Signer(receipt);
      NotedAppend(p, h, seen, receipts[..i], receipt);
      assert receipts[..i + 1] == receipts[..i] + [receipt];
      if name == "" {
        EmptyNeverCounts(p, h, receipt);
      } else if name !in seen {
        seen := seen + {name};
        CountsExact(p, h, receipt);
        if name in p.providers && p.providers[name].verifies(h, receipt) {
          report := report.(valid := report.valid + 1);
          valid := valid + {name};
        }
      } else {
        assert seen + {name} == seen;
      }
    }
    assert receipts[..|receipts|] == receipts;
    var names := SortedKeys(valid);
    report := report.(providers := names);
    if report.valid < p.threshold { return report, Some(AnchorThreshold); }
    return report, None;
  }

  /** The names the receipts carry, without the empty one. */
  ghost predicate Noted(seen: set<string>, receipts: seq<Receipt>) {
    forall n :: n in seen <==> n != "" && exists j :: 0 <= j < |receipts| && Signer(receipts[j]) == n
  }

  lemma NotedAppend(p: Policy, h: QueueHead, seen: set<string>, receipts: seq<Receipt>, r: Receipt)
    requires Noted(seen, receipts)
    ensures Signer(r) == "" ==> Noted(seen, receipts + [r])
    ensures Signer(r) != "" ==> Noted(seen + {Signer(r)}, receipts + [r])
    ensures VerifiedBy(p, h, receipts + [r]) == VerifiedBy(p, h, receipts) +
              if Signer(r) !in seen && Counts(p, h, r) then {Signer(r)} else {}
    ensures Signer(r) !in VerifiedBy(p, h, receipts) || Signer(r) in seen
  {
    hide Signer, VerifiedBy;
    VerifiedByAppend(p, h, receipts, r);
    VerifiedCarry(p, h, receipts, Signer(r));
    var longer := receipts + [r];
    assert longer[|receipts|] == r;
    assert forall j :: 0 <= j < |receipts| ==> longer[j] == receipts[j];
  }

  lemma VerifiedCarry(p: Policy, h: QueueHead, receipts: seq<Receipt>, n: string)
    ensures n in VerifiedBy(p, h, receipts) ==> n != "" && exists j :: 0 <= j < |receipts| && Signer(receipts[j]) == n
  {}

  lemma NoneVerified(p: Policy, h: QueueHead)
    ensures VerifiedBy(p, h, []) == {} && Noted({}, [])
  {}

  lemma EmptyNeverCounts(p: Policy, h: QueueHead, r: Receipt)
    requires Signer(r) == ""
    ensures !Counts(p, h, r)
  {}

  lemma CountsExact(p: Policy, h: QueueHead, r: Receipt)
    requires Signer(r) != ""
    ensures Counts(p, h, r) <==> Signer(r) in p.providers && p.providers[Signer(r)].verifies(h, r)
  {}

  /** Meeting the threshold needs that many distinct configured providers, each with a receipt in the list that
      the provider itself verifies. */
  lemma ThresholdNeedsDistinctProviders(p: Policy, h: QueueHead, receipts: seq<Receipt>)
    requires ThresholdMet(p, h, receipts)
    ensures var agreed := VerifiedBy(p, h, receipts);
            && |agreed| >= p.threshold && agreed <= p.providers.Keys
            && forall n :: n in agreed ==>
                 exists i :: 0 <= i < |receipts| && Signer(receipts[i]) == n && p.providers[n].verifies(h, receipts[i])
  {
    forall n | n in VerifiedBy(p, h, receipts)
      ensures n in p.providers
      ensures exists i :: 0 <= i < |receipts| && Signer(receipts[i]) == n && p.providers[n].verifies(h, receipts[i])
    {
      var i :| 0 <= i < |receipts| && IsFirst(receipts, i) && Counts(p, h, receipts[i]) && n == Signer(receipts[i]);
    }
  }

  // ---------------------------------------------------------------------------------------------
  // Anchoring

  /** What each provider answers to one anchoring request; a missing entry is a failure. */
  type Answers = map<string, Receipt>

  predicate Usable(p: Policy, h: QueueHead, answers: Answers, n: string) {
    n in p.providers && n in answers && ReceiptFault(answers[n], n, h) == None
  }

  /** `receipts` are the usable answers, one for each provider, in the order `names` of the providers' names. */
  ghost predicate AnswersOf(p: Policy, h: QueueHead, answers: Answers, names: seq<string>, receipts: seq<Receipt>) {
    && StrictlySorted(names) && (forall n :: n in names <==> Usable(p, h, answers, n))
    && |receipts| == |names| && forall i :: 0 <= i < |names| ==> names[i] in answers && receipts[i] == answers[names[i]]
  }

  method Anchor(p: Policy, h: QueueHead, answers: Answers) returns (receipts: seq<Receipt>, r: Option<AnchorError>)
    ensures Anchorable(h) ==> exists names :: AnswersOf(p, h, answers, names, receipts)
    ensures !Anchorable(h) ==> receipts == []
    ensures r == if !Anchorable(h) then Some(InvalidAnchor)
                 else if |receipts| < p.threshold then Some(AnchorThreshold)
                 else None
  {
    hide Anchorable, Usable, UsableAmong, ReceiptFault;
    receipts := [];
    if !Anchorable(h) { return receipts, Some(InvalidAnchor); }
    var sorted := SortedKeys(p.providers.Keys);
    ghost var names: seq<string> := [];
    assert sorted[..0] == [];
    NoneUsable(p, h, answers);
    for i := 0 to |sorted|
      invariant UsableAmong(p, h, answers, sorted[..i], names, receipts)
    {
      UsableStep(p, h, answers, sorted, i, names, receipts);
      if sorted[i] in answers && ReceiptFault(answers[sorted[i]], sorted[i], h).None? {
        names := names + [sorted[i]];
        receipts := receipts + [answers[sorted[i]]];
      }
    }
    assert sorted[..|sorted|] == sorted;
    AllUsable(p, h, answers, sorted, names, receipts);
    if |receipts| < p.threshold { return receipts, Some(AnchorThreshold); }
    return receipts, None;
  }

  /** The same for the providers in `among`. */
  ghost predicate UsableAmong(p: Policy, h: QueueHead, answers: Answers, among: seq<string>, names: seq<string>,
                              receipts: seq<Receipt>) {
    && StrictlySorted(names) && (forall n :: n in names <==> n in among && Usable(p, h, answers, n))
    && |receipts| == |names| && forall i :: 0 <= i < |names| ==> names[i] in answers && receipts[i] == answers[names[i]]
  }

  lemma NoneUsable(p: Policy, h: QueueHead, answers: Answers)
    ensures UsableAmong(p, h, answers, [], [], [])
  {}

  lemma UsableStep(p: Policy, h: QueueHead, answers: Answers, sorted: seq<string>, i: nat, names: seq<string>,
                   receipts: seq<Receipt>)
    requires i < |sorted| && StrictlySorted(sorted) && sorted[i] in p.providers
    requires UsableAmong(p, h, answers, sorted[..i], names, receipts)
    ensures var n := sorted[i];
            if n in answers && ReceiptFault(answers[n], n, h) == None
            then UsableAmong(p, h, answers, sorted[..i + 1], names + [n], receipts + [answers[n]])
            else UsableAmong(p, h, answers, sorted[..i + 1], names, receipts)
  {
    hide ReceiptFault, StrictlySorted, Usable;
    UsableExact(p, h, answers, sorted[i]);
    assert sorted[..i + 1] == sorted[..i] + [sorted[i]];
    SortedSnoc(sorted, i, names);
  }

  lemma AllUsable(p: Policy, h: QueueHead, answers: Answers, sorted: seq<string>, names: seq<string>,
                  receipts: seq<Receipt>)
    requires (forall n :: n in sorted <==> n in p.providers) && UsableAmong(p, h, answers, sorted, names, receipts)
    ensures AnswersOf(p, h, answers, names, receipts)
  {
    hide ReceiptFault, StrictlySorted;
  }

  lemma UsableExact(p: Policy, h: QueueHead, answers: Answers, n: string)
    ensures Usable(p, h, answers, n) <==> n in p.providers && n in answers && ReceiptFault(answers[n], n, h) == None
  {}

  lemma SortedSnoc(sorted: seq<string>, i: nat, names: seq<string>)
    requires i < |sorted| && StrictlySorted(sorted) && StrictlySorted(names)
    requires forall n :: n in names ==> n in sorted[..i]
    ensures StrictlySorted(names + [sorted[i]])
  {
    hide Less;
    forall k | 0 <= k < |names| ensures Less(names[k], sorted[i]) {
      assert names[k] in sorted[..i];
      var j :| 0 <= j < i && sorted[..i][j] == names[k];
      assert Less(sorted[j], sorted[i]);
    }
  }

  // ---------------------------------------------------------------------------------------------
  // Merging retained and new receipts

  /** The last receipt filed under exactly this provider text. */
  function LastFor(receipts: seq<Receipt>, name: string): Option<Receipt> {
    if receipts == [] then None
    else if receipts[|receipts| - 1].provider == name then Some(receipts[|receipts| - 1])
    else LastFor(receipts[..|receipts| - 1], name)
  }

  function ProviderNames(receipts: seq<Receipt>): seq<string> {
    seq(|receipts|, i requires 0 <= i < |receipts| => receipts[i].provider)
  }

  /** `merged` holds, sorted by provider, the newest receipt of each provider, `incoming` over `existing`. */
  ghost predicate IsMerge(existing: seq<Receipt>, incoming: seq<Receipt>, merged: seq<Receipt>) {
    && StrictlySorted(ProviderNames(merged))
    && (forall i :: 0 <= i < |merged| ==> LastFor(existing + incoming, merged[i].provider) == Some(merged[i]))
    && forall n :: LastFor(existing + incoming, n).Some? ==> n in ProviderNames(merged)
  }

  method MergeAnchorReceipts(existing: seq<Receipt>, incoming: seq<Receipt>) returns (merged: seq<Receipt>)
    ensures IsMerge(existing, incoming, merged)
  {
    var all := existing + incoming;
    var byProvider: map<string, Receipt> := map[];
    for i := 0 to |all|
      invariant forall n :: n in byProvider <==> LastFor(all[..i], n).Some?
      invariant forall n :: n in byProvider ==> LastFor(all[..i], n) == Some(byProvider[n])
    {
      assert all[..i + 1][..i] == all[..i];
      byProvider := byProvider[all[i].provider := all[i]];
    }
    assert all[..|all|] == all;
    forall n | n in byProvider ensures byProvider[n].provider == n { LastForProvider(all, n); }
    var names := SortedKeys(byProvider.Keys);
    merged := [];
    for i := 0 to |names|
      invariant |merged| == i
      invariant forall k :: 0 <= k < i ==> merged[k] == byProvider[names[k]]
    {
      merged := merged + [byProvider[names[i]]];
    }
    assert ProviderNames(merged) == names;
  }

  lemma {:induction false} LastForProvider(receipts: seq<Receipt>, name: string)
    requires LastFor(receipts, name).Some?
    ensures LastFor(receipts, name).value.provider == name && LastFor(receipts, name).value in receipts
  {
    if receipts[|receipts| - 1].provider != name { LastForProvider(receipts[..|receipts| - 1], name); }
  }

  /** Every merged receipt was retained or is new. */
  lemma MergeSources(existing: seq<Receipt>, incoming: seq<Receipt>, merged: seq<Receipt>)
    requires IsMerge(existing, incoming, merged)
    ensures forall r :: r in merged ==> r in existing || r in incoming
  {
    forall r | r in merged ensures r in existing || r in incoming {
      var i :| 0 <= i < |merged| && merged[i] == r;
      LastForProvider(existing + incoming, merged[i].provider);
    }
  }

  lemma {:induction false} LastForConcat(a: seq<Receipt>, b: seq<Receipt>, name: string)
    ensures LastFor(a + b, name) == if LastFor(b, name).Some? then LastFor(b, name) else LastFor(a, name)
    decreases |b|
  {
    if b == [] {
      assert a + b == a;
    } else {
      assert (a + b)[..|a + b| - 1] == a + b[..|b| - 1];
      LastForConcat(a, b[..|b| - 1], name);
    }
  }

  /** `text` is the least of the provider texts in the list that trim to `n`. */
  ghost predicate FirstSpelling(all: seq<Receipt>, text: string, n: string) {
    && LastFor(all, text).Some? && TrimSpace(text) == n
    && forall other :: LastFor(all, other).Some? && TrimSpace(other) == n ==> other == text || Less(text, other)
  }

  /** After a merge a provider counts exactly when it verifies the newest receipt under the least spelling of its name:
      receipts are filed under their texts as they are, but counted under the trimmed ones, the first winning. */
  lemma MergedCounts(p: Policy, h: QueueHead, existing: seq<Receipt>, incoming: seq<Receipt>, merged: seq<Receipt>,
                     n: string)
    requires IsMerge(existing, incoming, merged)
    ensures n in VerifiedBy(p, h, merged)
       <==> exists text :: FirstSpelling(existing + incoming, text, n)
                           && Counts(p, h, LastFor(existing + incoming, text).value)
  {
    hide Counts, Less, TrimSpace, LastFor, VerifiedBy;
    if n in VerifiedBy(p, h, merged) {
      var i := VerifiedIndex(p, h, merged, n);
      FirstIsLeast(existing, incoming, merged, i);
    }
    if text :| FirstSpelling(existing + incoming, text, n) && Counts(p, h, LastFor(existing + incoming, text).value) {
      LeastIsFirst(existing, incoming, merged, text, n);
      var i :| 0 <= i < |merged| && merged[i].provider == text;
      IndexVerified(p, h, merged, i);
    }
  }

  lemma VerifiedIndex(p: Policy, h: QueueHead, merged: seq<Receipt>, n: string) returns (i: nat)
    requires n in VerifiedBy(p, h, merged)
    ensures i < |merged| && IsFirst(merged, i) && Counts(p, h, merged[i]) && Signer(merged[i]) == n
  {
    i :| 0 <= i < |merged| && IsFirst(merged, i) && Counts(p, h, merged[i]) && Signer(merged[i]) == n;
  }

  lemma IndexVerified(p: Policy, h: QueueHead, merged: seq<Receipt>, i: nat)
    requires i < |merged| && IsFirst(merged, i) && Counts(p, h, merged[i])
    ensures Signer(merged[i]) in VerifiedBy(p, h, merged)
  {}

  /** The first merged receipt of a provider carries the least spelling of its name. */
  lemma FirstIsLeast(existing: seq<Receipt>, incoming: seq<Receipt>, merged: seq<Receipt>, i: nat)
    requires IsMerge(existing, incoming, merged) && i < |merged| && IsFirst(merged, i)
    ensures FirstSpelling(existing + incoming, merged[i].provider, Signer(merged[i]))
    ensures LastFor(existing + incoming, merged[i].provider) == Some(merged[i])
  {
    hide Less, TrimSpace, LastFor;
    var names := ProviderNames(merged);
    forall other | LastFor(existing + incoming, other).Some? && TrimSpace(other) == Signer(merged[i])
      ensures other == merged[i].provider || Less(merged[i].provider, other)
    {
      var j :| 0 <= j < |merged| && names[j] == other;
      assert names[i] == merged[i].provider && other == merged[j].provider;
    }
  }

  lemma LeastIsFirst(existing: seq<Receipt>, incoming: seq<Receipt>, merged: seq<Receipt>, text: string, n: string)
    requires IsMerge(existing, incoming, merged) && FirstSpelling(existing + incoming, text, n)
    ensures exists i :: 0 <= i < |merged| && merged[i].provider == text
    ensures forall i :: 0 <= i < |merged| && merged[i].provider == text ==>
              IsFirst(merged, i) && Signer(merged[i]) == n && LastFor(existing + incoming, text) == Some(merged[i])
  {
    hide Less, TrimSpace, LastFor;
    var names := ProviderNames(merged);
    assert text in names;
    var i :| 0 <= i < |merged| && names[i] == text;
    assert merged[i].provider == text;
    forall i, j | 0 <= j < i < |merged| && merged[i].provider == text ensures Signer(merged[j]) != Signer(merged[i]) {
      assert names[j] == merged[j].provider && names[i] == text;
      assert LastFor(existing + incoming, merged[j].provider).Some?;
      LessAsymmetric(names[j], text);
    }
  }

  /** The newest receipt under the least spelling of the provider's name is a new one that the provider verifies. */
  ghost predicate NewlyVerified(p: Policy, h: QueueHead, existing: seq<Receipt>, incoming: seq<Receipt>, n: string) {
    exists text :: FirstSpelling(existing + incoming, text, n) && LastFor(incoming, text).Some?
                   && Counts(p, h, LastFor(incoming, text).value)
  }

  /** Enough such providers meet the threshold at once. */
  lemma FreshReceiptsMeetThreshold(p: Policy, h: QueueHead, existing: seq<Receipt>, incoming: seq<Receipt>,
                                   merged: seq<Receipt>, names: set<string>)
    requires IsMerge(existing, incoming, merged) && Anchorable(h) && |names| >= p.threshold
    requires forall n :: n in names ==> NewlyVerified(p, h, existing, incoming, n)
    ensures ThresholdMet(p, h, merged)
  {
    hide Counts, VerifiedBy, IsMerge, Anchorable, FirstSpelling, LastFor;
    forall n | n in names ensures n in VerifiedBy(p, h, merged) {
      var text :| FirstSpelling(existing + incoming, text, n) && LastFor(incoming, text).Some?
                  && Counts(p, h, LastFor(incoming, text).value);
      LastForConcat(existing, incoming, text);
      MergedCounts(p, h, existing, incoming, merged, n);
    }
    SubsetSize(names, VerifiedBy(p, h, merged));
  }

  /** Where all texts are trimmed a provider has one spelling, so that any new receipt it verifies counts. */
  lemma TrimmedTextsCount(p: Policy, h: QueueHead, existing: seq<Receipt>, incoming: seq<Receipt>, n: string)
    requires forall r :: r in existing || r in incoming ==> Signer(r) == r.provider
    requires LastFor(incoming, n).Some? && Counts(p, h, LastFor(incoming, n).value)
    ensures NewlyVerified(p, h, existing, incoming, n)
  {
    hide Counts, Less, TrimSpace, LastFor;
    var all := existing + incoming;
    forall text | LastFor(all, text).Some? ensures TrimSpace(text) == text {
      LastForProvider(all, text);
    }
    LastForConcat(existing, incoming, n);
    LastForProvider(incoming, n);
    assert FirstSpelling(all, n, n);
  }

  /** The spelling matters: a retained receipt whose provider text trims to the name but sorts before it, which
      `ValidateFor` lets in, hides a new receipt that the provider verifies. */
  lemma RetainedHidesNew(p: Policy, h: QueueHead, retained: Receipt, added: Receipt, merged: seq<Receipt>)
    requires IsMerge([retained], [added], merged) && Anchorable(h) && p.threshold >= 1
    requires TrimSpace(retained.provider) == added.provider && Less(retained.provider, added.provider)
    requires Counts(p, h, added) && !Counts(p, h, retained)
    ensures !ThresholdMet(p, h, merged) && (p.threshold == 1 ==> ThresholdMet(p, h, [added]))
    ensures ReceiptFault(retained, added.provider, h) ==
              ReceiptFault(retained.(provider := added.provider), added.provider, h)
  {
    hide Less, IsMerge, VerifiedBy, Anchorable, Counts;
    TrimIdempotent(retained.provider);
    forall m ensures m !in VerifiedBy(p, h, merged) {
      MergedCounts(p, h, [retained], [added], merged, m);
      HiddenByFirst(p, h, retained, added, m);
    }
    OneVerified(p, h, added);
  }

  lemma TwoReceipts(a: Receipt, b: Receipt, text: string)
    ensures LastFor([a] + [b], text) ==
              if b.provider == text then Some(b) else if a.provider == text then Some(a) else None
  {
    var both := [a] + [b];
    assert both[1] == b && both[..1] == [a];
    assert LastFor([a][..0], text) == None;
    assert LastFor([a], text) == if a.provider == text then Some(a) else None;
  }

  lemma HiddenByFirst(p: Policy, h: QueueHead, retained: Receipt, added: Receipt, m: string)
    requires TrimSpace(retained.provider) == added.provider == TrimSpace(added.provider)
    requires Less(retained.provider, added.provider) && !Counts(p, h, retained)
    ensures !exists text :: FirstSpelling([retained] + [added], text, m)
                            && Counts(p, h, LastFor([retained] + [added], text).value)
  {
    hide Less, Counts, TrimSpace, LastFor;
    LessAsymmetric(retained.provider, added.provider);
    TwoReceipts(retained, added, retained.provider);
    forall text | FirstSpelling([retained] + [added], text, m)
      ensures !Counts(p, h, LastFor([retained] + [added], text).value)
    {
      TwoReceipts(retained, added, text);
    }
  }

  lemma OneVerified(p: Policy, h: QueueHead, r: Receipt)
    requires Counts(p, h, r)
    ensures Signer(r) in VerifiedBy(p, h, [r]) && |VerifiedBy(p, h, [r])| >= 1
  {
    hide Counts, Signer;
    IndexVerified(p, h, [r], 0);
    SubsetSize({Signer(r)}, VerifiedBy(p, h, [r]));
  }

  /** Such texts are easy to come by: a blank before the name. */
  lemma BlankBeforeName(n: string)
    requires n != "" && TrimSpace(n) == n && ' ' < n[0]
    ensures TrimSpace(" " + n) == n && Less(" " + n, n)
  {
    hide TrimRight;
    assert (" " + n)[1..] == n;
    assert TrimLeft(" " + n, IsSpace) == TrimLeft(n, IsSpace);
  }

  lemma SubsetSize<T>(a: set<T>, b: set<T>)
    requires a <= b
    ensures |a| <= |b|
  {
    assert b == a + (b - a);
  }
}
