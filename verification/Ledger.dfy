/** Signed statements, the trust policy, the append-only ledger check and the equivocation witness. */
module Ledger {
  import opened Results
  import opened Numbers
  import opened Text
  import opened DigestTexts
  import opened Evidence

  /** An Ed25519 key, identified by its key identifier (the digest of the key bytes). */
  datatype PublicKey = PublicKey(keyID: string)

  /** Signatures are idealised: only the holder of `key` produces `Signature(key, statement)`. */
  datatype Signature = Signature(key: PublicKey, statement: Statement) | OtherSignature(tag: nat)

  /** A base64 field: a well-formed encoding (with any surrounding white space) or anything else. */
  datatype Encoded<+T> = Encoded(value: T, padding: string) | Malformed(text: string)

  datatype SignedStatement = SignedStatement(
    statement: Statement, algorithm: string, publicKey: Encoded<PublicKey>, signature: Encoded<Signature>)

  datatype TrustPolicy = TrustPolicy(keys: map<string, PublicKey>)

  type StreamHead = Head<HexDigest>

  const ALGORITHM_ED25519 := "ed25519"

  predicate Ed25519Verify(key: PublicKey, statement: Statement, signature: Signature) {
    signature == Signature(key, statement)
  }

  function SignStatement(statement: Statement, key: PublicKey): Result<SignedStatement, Error> {
    if statement.signerKeyID != key.keyID then Err(InvalidEvidence)
    else if StatementFault(statement).Some? then Err(StatementFault(statement).value)
    else Ok(SignedStatement(statement, ALGORITHM_ED25519, Encoded(key, ""), Encoded(Signature(key, statement), "")))
  }

  /** `TrustPolicy.Verify`: `None` when the statement is trusted. */
  function TrustFault(trust: TrustPolicy, signed: SignedStatement): Option<Error> {
    if signed.algorithm != ALGORITHM_ED25519 then Some(InvalidSignature)
    else if signed.statement.signerKeyID !in trust.keys then Some(UntrustedSigner)
    else
      var key := trust.keys[signed.statement.signerKeyID];
      if !signed.publicKey.Encoded? || signed.publicKey.value != key then Some(UntrustedSigner)
      else if !signed.signature.Encoded? then Some(InvalidSignature)
      else if StatementFault(signed.statement).Some? then StatementFault(signed.statement)
      else if !Ed25519Verify(key, signed.statement, signed.signature.value) then Some(InvalidSignature)
      else None
  }

  function StatementDigest(s: Statement): HexDigest { Encode(StatementHash(s)) }

  // ---------------------------------------------------------------------------------------------
  // The ledger

  datatype VerifyOptions = VerifyOptions(expectedStreamID: string, witnessedHead: Option<StreamHead>)

  datatype VerificationReport = VerificationReport(
    streamID: string, statements: nat, head: StreamHead, authentic: bool, completenessBound: bool)

  function ExpectedStream(ledger: seq<SignedStatement>, options: VerifyOptions): string
    requires ledger != []
  {
    if Blank(options.expectedStreamID) then ledger[0].statement.streamID else TrimSpace(options.expectedStreamID)
  }

  /** The digest that entry `i` must name as its predecessor. */
  function PreviousDigest(ledger: seq<SignedStatement>, i: nat): HexDigest
    requires i <= |ledger|
  {
    if i == 0 then Absent() else StatementDigest(ledger[i - 1].statement)
  }

  /** What `VerifyLedger` objects to at entry `i`. */
  function EntryFault(ledger: seq<SignedStatement>, i: nat, trust: TrustPolicy, stream: string): Option<Error>
    requires i < |ledger|
  {
    var s := ledger[i].statement;
    if s.streamID != stream then Some(WrongStream)
    else if s.sequence != i + 1 || s.previousSHA256 != PreviousDigest(ledger, i) then Some(BrokenChain)
    else TrustFault(trust, ledger[i])
  }

  ghost predicate ValidChain(ledger: seq<SignedStatement>, trust: TrustPolicy, stream: string) {
    ledger != [] && forall i :: 0 <= i < |ledger| ==> EntryFault(ledger, i, trust, stream) == None
  }

  function LedgerHead(ledger: seq<SignedStatement>, stream: string): StreamHead
    requires 0 < |ledger| < 0x1_0000_0000_0000_0000
  {
    Head(stream, |ledger|, PreviousDigest(ledger, |ledger|))
  }

  ghost predicate LedgerAccepted(ledger: seq<SignedStatement>, trust: TrustPolicy, options: VerifyOptions)
    requires |ledger| < 0x1_0000_0000_0000_0000
  {
    && ledger != [] && ValidChain(ledger, trust, ExpectedStream(ledger, options))
    && (options.witnessedHead.Some? ==>
          options.witnessedHead.value == LedgerHead(ledger, ExpectedStream(ledger, options)))
  }

  /** The error returned: the first faulty entry's, or a head mismatch on a faultless ledger. */
  ghost predicate LedgerReports(ledger: seq<SignedStatement>, trust: TrustPolicy, options: VerifyOptions, e: Error) {
    if ledger == [] then e == InvalidEvidence
    else
      var stream := ExpectedStream(ledger, options);
      || (ValidChain(ledger, trust, stream) && e == HeadMismatch)
      || exists i :: 0 <= i < |ledger| && EntryFault(ledger, i, trust, stream) == Some(e)
                     && forall j :: 0 <= j < i ==> EntryFault(ledger, j, trust, stream) == None
  }

  method VerifyLedger(ledger: seq<SignedStatement>, trust: TrustPolicy, options: VerifyOptions)
    returns (r: Result<VerificationReport, Error>)
    requires |ledger| < 0x8000_0000_0000_0000
    ensures r.Ok? <==> LedgerAccepted(ledger, trust, options)
    ensures r.Ok? ==> r.value == VerificationReport(
                        ExpectedStream(ledger, options), |ledger|, LedgerHead(ledger, ExpectedStream(ledger, options)),
                        true, options.witnessedHead.Some?)
    ensures r.Err? ==> LedgerReports(ledger, trust, options, r.error)
  {
    hide TrustFault;
    if |ledger| == 0 { return Err(InvalidEvidence); }
    var stream := TrimSpace(options.expectedStreamID);
    if stream == "" { stream := ledger[0].statement.streamID; }
    var previous: HexDigest := Absent();
    for i := 0 to |ledger|
      invariant previous == PreviousDigest(ledger, i)
      invariant forall j :: 0 <= j < i ==> EntryFault(ledger, j, trust, stream) == None
    {
      var s := ledger[i].statement;
      if s.streamID != stream {
        assert EntryFault(ledger, i, trust, stream) == Some(WrongStream);
        return Err(WrongStream);
      }
      if s.sequence != i + 1 || s.previousSHA256 != previous {
        assert EntryFault(ledger, i, trust, stream) == Some(BrokenChain);
        return Err(BrokenChain);
      }
      var fault := TrustFault(trust, ledger[i]);
      if fault.Some? {
        assert EntryFault(ledger, i, trust, stream) == Some(fault.value);
        return Err(fault.value);
      }
      previous := StatementDigest(s);
    }
    var head := Head(stream, |ledger|, previous);
    if options.witnessedHead.Some? && options.witnessedHead.value != head { return Err(HeadMismatch); }
    return Ok(VerificationReport(stream, |ledger|, head, true, options.witnessedHead.Some?));
  }

  // ---------------------------------------------------------------------------------------------
  // What acceptance says about every entry

  /** Signed with the key that the policy holds for the signer that the statement names. */
  ghost predicate Authentic(trust: TrustPolicy, signed: SignedStatement) {
    var id := signed.statement.signerKeyID;
    && signed.algorithm == "ed25519" && id in trust.keys
    && signed.publicKey.Encoded? && signed.publicKey.value == trust.keys[id]
    && signed.signature.Encoded? && signed.signature.value == Signature(trust.keys[id], signed.statement)
  }

  /** A digest in lower-case hexadecimal, and nothing around it. */
  ghost predicate LowerHex(t: HexDigest) { t.Hex? && t == Hex(t.value, "", "") }

  /** Every field has a value, and the first statement of a stream is the one without a predecessor. */
  ghost predicate WellFormed(s: Statement) {
    && s.version == "weaverssh.evidence-binding.v1"
    && !Blank(s.streamID) && !Blank(s.signerKeyID) && !Blank(s.nonce)
    && s.sequence > 0 && s.leafCount > 0 && s.issuedAtUnix > 0 && LowerHex(s.merkleRootSHA256)
    && (s.sequence == 1 ==> IsBlank(s.previousSHA256)) && (s.sequence > 1 ==> LowerHex(s.previousSHA256))
  }

  /** Entry `i` has the number `i + 1` and names the digest of the entry before it. */
  ghost predicate Linked(ledger: seq<SignedStatement>, i: nat)
    requires i < |ledger|
  {
    && ledger[i].statement.sequence == i + 1
    && ledger[i].statement.previousSHA256
       == if i == 0 then NotHex("") else Hex(StatementHash(ledger[i - 1].statement), "", "")
  }

  /** The public key is the one that the policy holds for the signer. */
  ghost predicate Known(trust: TrustPolicy, signed: SignedStatement) {
    var id := signed.statement.signerKeyID;
    id in trust.keys && signed.publicKey.Encoded? && signed.publicKey.value == trust.keys[id]
  }

  /** A statement is trusted exactly when it is authentic and well formed.  An unknown signer is reported as untrusted,
      and a well-formed statement of a known signer that is not authentic as badly signed. */
  lemma TrustedExactly(trust: TrustPolicy, signed: SignedStatement)
    ensures TrustFault(trust, signed) == None <==> Authentic(trust, signed) && WellFormed(signed.statement)
    ensures TrustFault(trust, signed) == Some(UntrustedSigner)
       <==> signed.algorithm == "ed25519" && !Known(trust, signed)
    ensures Known(trust, signed) && WellFormed(signed.statement) && !Authentic(trust, signed) ==>
              TrustFault(trust, signed) == Some(InvalidSignature)
  {
    hide TrimSpace;
  }

  /** A key signs exactly the well-formed statements that name it, and what it signs is trusted wherever the key is. */
  lemma SignedIsTrusted(statement: Statement, key: PublicKey, trust: TrustPolicy)
    ensures SignStatement(statement, key).Ok? <==> statement.signerKeyID == key.keyID && WellFormed(statement)
    ensures SignStatement(statement, key).Ok? && key.keyID in trust.keys && trust.keys[key.keyID] == key ==>
              TrustFault(trust, SignStatement(statement, key).value) == None
              && SignStatement(statement, key).value.statement == statement
  {
    hide TrimSpace;
  }

  ghost predicate Sound(ledger: seq<SignedStatement>, trust: TrustPolicy, stream: string) {
    forall i :: 0 <= i < |ledger| ==>
      && Linked(ledger, i) && ledger[i].statement.streamID == stream
      && Authentic(trust, ledger[i]) && WellFormed(ledger[i].statement)
  }

  lemma ChainExactly(ledger: seq<SignedStatement>, trust: TrustPolicy, stream: string)
    requires ledger != []
    ensures ValidChain(ledger, trust, stream) <==> Sound(ledger, trust, stream)
  {
    hide TrustFault, Authentic, WellFormed;
    forall i | 0 <= i < |ledger|
      ensures EntryFault(ledger, i, trust, stream) == None
         <==> && Linked(ledger, i) && ledger[i].statement.streamID == stream
              && Authentic(trust, ledger[i]) && WellFormed(ledger[i].statement) {
      TrustedExactly(trust, ledger[i]);
    }
  }

  /** A ledger is accepted exactly when it is not empty, its entries are linked, authentic, well formed and all of one
      stream, the expected one if any, and a witnessed head names that stream, its length and its last statement. */
  lemma AcceptedExactly(ledger: seq<SignedStatement>, trust: TrustPolicy, options: VerifyOptions)
    requires |ledger| < 0x8000_0000_0000_0000
    ensures LedgerAccepted(ledger, trust, options)
       <==> ledger != [] && var stream := ledger[0].statement.streamID;
            && Sound(ledger, trust, stream)
            && (Blank(options.expectedStreamID) || TrimSpace(options.expectedStreamID) == stream)
            && (options.witnessedHead.None? || options.witnessedHead.value
                == Head(stream, |ledger|, Hex(StatementHash(ledger[|ledger| - 1].statement), "", "")))
  {
    hide EntryFault, TrimSpace, Authentic, WellFormed;
    if ledger != [] { ChainExactly(ledger, trust, ExpectedStream(ledger, options)); }
  }

  lemma SignatureFixesStatement(a: SignedStatement, b: SignedStatement, ta: TrustPolicy, tb: TrustPolicy)
    requires Authentic(ta, a) && Authentic(tb, b) && a.signature == b.signature
    ensures a.statement == b.statement
  {}

  /** A signature found in one accepted ledger makes no other statement acceptable, in any ledger, to anyone. */
  lemma SignatureFitsOneStatement(a: seq<SignedStatement>, i: nat, b: seq<SignedStatement>, k: nat, ta: TrustPolicy,
                                  tb: TrustPolicy, oa: VerifyOptions, ob: VerifyOptions)
    requires |a| < 0x8000_0000_0000_0000 && |b| < 0x8000_0000_0000_0000 && i < |a| && k < |b|
    requires LedgerAccepted(a, ta, oa) && b[k].signature == a[i].signature && b[k].statement != a[i].statement
    ensures !LedgerAccepted(b, tb, ob)
  {
    hide LedgerAccepted, Authentic, WellFormed;
    AcceptedExactly(a, ta, oa);
    AcceptedExactly(b, tb, ob);
    if LedgerAccepted(b, tb, ob) { SignatureFixesStatement(a[i], b[k], ta, tb); }
  }

  /** Tamper evidence: after any change to one statement, with its signature kept, the ledger is refused under every
      trust policy and all options. */
  lemma AlteredStatementRefused(ledger: seq<SignedStatement>, k: nat, altered: Statement, ta: TrustPolicy,
                                tb: TrustPolicy, oa: VerifyOptions, ob: VerifyOptions)
    requires k < |ledger| < 0x8000_0000_0000_0000 && LedgerAccepted(ledger, ta, oa)
    requires altered != ledger[k].statement
    ensures !LedgerAccepted(ledger[k := ledger[k].(statement := altered)], tb, ob)
  {
    hide LedgerAccepted;
    var forged := ledger[k := ledger[k].(statement := altered)];
    assert forged[k].signature == ledger[k].signature && forged[k].statement == altered;
    SignatureFitsOneStatement(ledger, k, forged, k, ta, tb, oa, ob);
  }

  function Statements(ledger: seq<SignedStatement>): seq<Statement> {
    seq(|ledger|, i requires 0 <= i < |ledger| => ledger[i].statement)
  }

  /** Equal last digests force equal histories, entry by entry back to the first. */
  lemma {:induction false} ChainBackwards(a: seq<SignedStatement>, b: seq<SignedStatement>,
                                          ta: TrustPolicy, tb: TrustPolicy, sa: string, sb: string, n: nat)
    requires ValidChain(a, ta, sa) && ValidChain(b, tb, sb) && n <= |a| && n <= |b|
    requires PreviousDigest(a, n) == PreviousDigest(b, n)
    ensures forall i :: 0 <= i < n ==> a[i].statement == b[i].statement
  {
    if n != 0 {
      assert a[n - 1].statement == b[n - 1].statement;
      assert EntryFault(a, n - 1, ta, sa) == None && EntryFault(b, n - 1, tb, sb) == None;
      ChainBackwards(a, b, ta, tb, sa, sb, n - 1);
    }
  }

  lemma StatementsEqual(a: seq<SignedStatement>, b: seq<SignedStatement>)
    ensures Statements(a) == Statements(b)
       <==> |a| == |b| && forall i :: 0 <= i < |a| ==> a[i].statement == b[i].statement
  {
    if Statements(a) == Statements(b) {
      assert |a| == |Statements(a)| == |b|;
      assert forall i :: 0 <= i < |a| ==> a[i].statement == Statements(a)[i] == Statements(b)[i] == b[i].statement;
    }
  }

  /** Two accepted ledgers have the same head exactly when they hold the same statements in the same order,
      even when they were checked against different trust policies. */
  lemma HeadDeterminesLedger(a: seq<SignedStatement>, b: seq<SignedStatement>, ta: TrustPolicy, tb: TrustPolicy,
                             sa: string, sb: string)
    requires |a| < 0x8000_0000_0000_0000 && |b| < 0x8000_0000_0000_0000
    requires ValidChain(a, ta, sa) && ValidChain(b, tb, sb)
    ensures LedgerHead(a, sa) == LedgerHead(b, sb) <==> Statements(a) == Statements(b)
  {
    StatementsEqual(a, b);
    assert EntryFault(a, 0, ta, sa) == None && EntryFault(b, 0, tb, sb) == None;
    if LedgerHead(a, sa) == LedgerHead(b, sb) {
      ChainBackwards(a, b, ta, tb, sa, sb, |a|);
    }
  }

  lemma SameStatementsSound(a: seq<SignedStatement>, b: seq<SignedStatement>, ta: TrustPolicy, tb: TrustPolicy,
                            stream: string)
    requires Sound(a, ta, stream) && |a| == |b| && forall i :: 0 <= i < |b| ==> Authentic(tb, b[i])
    requires forall i :: 0 <= i < |a| ==> a[i].statement == b[i].statement
    ensures Sound(b, tb, stream)
  {
    hide Authentic, WellFormed;
    forall i | 0 <= i < |b|
      ensures Linked(b, i) && b[i].statement.streamID == stream && WellFormed(b[i].statement) {
      assert Linked(a, i);
    }
  }

  /** Against the head of an accepted ledger, whatever stream is expected, another ledger is accepted exactly when it
      holds the same statements, each authentic, and the expected stream is blank or theirs: a truncated, extended,
      reordered or altered ledger is refused. */
  lemma WitnessedHeadPinsLedger(a: seq<SignedStatement>, b: seq<SignedStatement>, ta: TrustPolicy, tb: TrustPolicy,
                                options: VerifyOptions, expected: string)
    requires |a| < 0x8000_0000_0000_0000 && |b| < 0x8000_0000_0000_0000 && LedgerAccepted(a, ta, options)
    ensures var stream := ExpectedStream(a, options);
            LedgerAccepted(b, tb, VerifyOptions(expected, Some(LedgerHead(a, stream))))
            <==> Statements(a) == Statements(b) && (Blank(expected) || TrimSpace(expected) == stream)
                 && forall i :: 0 <= i < |b| ==> Authentic(tb, b[i])
  {
    hide EntryFault, TrimSpace, Authentic, WellFormed, Linked, ValidChain;
    var stream := ExpectedStream(a, options);
    var ob := VerifyOptions(expected, Some(LedgerHead(a, stream)));
    StatementsEqual(a, b);
    ChainExactly(a, ta, stream);
    AcceptedExactly(b, tb, ob);
    if LedgerAccepted(b, tb, ob) {
      HeadDeterminesLedger(a, b, ta, tb, stream, ExpectedStream(b, ob));
    }
    if Statements(a) == Statements(b) && (Blank(expected) || TrimSpace(expected) == stream)
       && forall i :: 0 <= i < |b| ==> Authentic(tb, b[i]) {
      SameStatementsSound(a, b, ta, tb, stream);
    }
  }

  // ---------------------------------------------------------------------------------------------
  // The equivocation witness

  /** `fmt.Sprintf("%s\x00%020d", stream, sequence)`. */
  function WitnessKey(stream: string, sequence: U64): string {
    stream + "\0" + Decimal(sequence, 20)
  }

  lemma WitnessKeyInjective(s: string, m: U64, t: string, n: U64)
    requires WitnessKey(s, m) == WitnessKey(t, n)
    ensures s == t && m == n
  {
    var a, b := WitnessKey(s, m), WitnessKey(t, n);
    assert a[|a| - 20..] == Decimal(m, 20) && b[|b| - 20..] == Decimal(n, 20);
    assert a[..|a| - 21] == s && b[..|b| - 21] == t;
    Pow10Of20();
    DecimalInjective(m, n, 20);
  }

  function StatementHead(s: Statement): StreamHead { Head(s.streamID, s.sequence, StatementDigest(s)) }

  function HeadKey(h: StreamHead): string { WitnessKey(h.streamID, h.sequence) }

  /** `Witness.Observe` on the table of digests seen so far. */
  function ObserveResult(seen: map<string, HexDigest>, signed: SignedStatement,
                         trust: TrustPolicy): Result<StreamHead, Error> {
    var head := StatementHead(signed.statement);
    if TrustFault(trust, signed).Some? then Err(TrustFault(trust, signed).value)
    else if HeadKey(head) in seen && seen[HeadKey(head)] != head.statementSHA256 then Err(Equivocation)
    else Ok(head)
  }

  function ObserveSeen(seen: map<string, HexDigest>, signed: SignedStatement,
                       trust: TrustPolicy): map<string, HexDigest> {
    var r := ObserveResult(seen, signed, trust);
    if r.Ok? then seen[HeadKey(r.value) := r.value.statementSHA256] else seen
  }

  class Witness {
    var seen: map<string, HexDigest>

    constructor ()
      ensures seen == map[]
    {
      seen := map[];
    }

    method Observe(signed: SignedStatement, trust: TrustPolicy) returns (r: Result<StreamHead, Error>)
      modifies this
      ensures r == ObserveResult(old(seen), signed, trust)
      ensures seen == ObserveSeen(old(seen), signed, trust)
    {
      var fault := TrustFault(trust, signed);
      if fault.Some? { return Err(fault.value); }
      var digest := StatementDigest(signed.statement);
      var key := WitnessKey(signed.statement.streamID, signed.statement.sequence);
      if key in seen && seen[key] != digest { return Err(Equivocation); }
      seen := seen[key := digest];
      return Ok(Head(signed.statement.streamID, signed.statement.sequence, digest));
    }
  }

  datatype Observation = Observation(signed: SignedStatement, trust: TrustPolicy)

  /** The witness's table and the heads it returned, oldest first, over a run. */
  datatype WitnessState = WitnessState(seen: map<string, HexDigest>, returned: seq<StreamHead>)

  function WitnessRun(run: seq<Observation>): WitnessState {
    if run == [] then WitnessState(map[], [])
    else
      var before := WitnessRun(run[..|run| - 1]);
      var o := run[|run| - 1];
      var r := ObserveResult(before.seen, o.signed, o.trust);
      WitnessState(ObserveSeen(before.seen, o.signed, o.trust),
                   if r.Ok? then before.returned + [r.value] else before.returned)
  }

  /** The table holds exactly the heads returned so far. */
  ghost predicate SeenIsHistory(w: WitnessState) {
    && (forall h :: h in w.returned ==> HeadKey(h) in w.seen && w.seen[HeadKey(h)] == h.statementSHA256)
    && (forall k :: k in w.seen ==> exists h :: h in w.returned && HeadKey(h) == k)
  }

  lemma {:induction false} SeenHistory(run: seq<Observation>)
    ensures SeenIsHistory(WitnessRun(run))
  {
    if run != [] {
      SeenHistory(run[..|run| - 1]);
      var before, after := WitnessRun(run[..|run| - 1]), WitnessRun(run);
      forall k | k in after.seen ensures exists h :: h in after.returned && HeadKey(h) == k {
        if k in before.seen {
          var h :| h in before.returned && HeadKey(h) == k;
          assert h in after.returned;
        } else {
          assert after.returned[|after.returned| - 1] in after.returned;
        }
      }
    }
  }

  /** Over any run, a witness never returns two digests for one stream and sequence. */
  lemma WitnessNeverEquivocates(run: seq<Observation>, g: StreamHead, h: StreamHead)
    requires g in WitnessRun(run).returned && h in WitnessRun(run).returned
    requires g.streamID == h.streamID && g.sequence == h.sequence
    ensures g == h
  {
    SeenHistory(run);
  }

  /** Every head a witness returns is that of an authentic, well-formed statement which it was shown. */
  lemma {:induction false} ReturnedWasSigned(run: seq<Observation>, h: StreamHead)
    requires h in WitnessRun(run).returned
    ensures exists i :: 0 <= i < |run| && ShownAs(run[i], h)
  {
    hide Authentic, WellFormed, TrustFault;
    var n := |run| - 1;
    var before, o := WitnessRun(run[..n]), run[n];
    if h in before.returned {
      ReturnedWasSigned(run[..n], h);
      var i :| 0 <= i < n && ShownAs(run[..n][i], h);
      assert run[i] == run[..n][i];
    } else {
      TrustedExactly(o.trust, o.signed);
      assert ShownAs(run[n], h);
    }
  }

  ghost predicate ShownAs(o: Observation, h: StreamHead) {
    && Authentic(o.trust, o.signed) && WellFormed(o.signed.statement)
    && h == Head(o.signed.statement.streamID, o.signed.statement.sequence,
                 Hex(StatementHash(o.signed.statement), "", ""))
  }

  /** Equivocation is reported for a trusted statement exactly when the run so far returned another digest for
      the same stream and sequence. */
  lemma EquivocationExact(run: seq<Observation>, next: Observation)
    requires Authentic(next.trust, next.signed) && WellFormed(next.signed.statement)
    ensures ObserveResult(WitnessRun(run).seen, next.signed, next.trust) == Err(Equivocation)
       <==> exists h :: h in WitnessRun(run).returned && h.streamID == next.signed.statement.streamID
              && h.sequence == next.signed.statement.sequence
              && h.statementSHA256 != StatementDigest(next.signed.statement)
  {
    hide Authentic, WellFormed, TrustFault;
    SeenHistory(run);
    TrustedExactly(next.trust, next.signed);
    var w, s := WitnessRun(run), next.signed.statement;
    var key := HeadKey(StatementHead(s));
    if key in w.seen {
      var h :| h in w.returned && HeadKey(h) == key;
      WitnessKeyInjective(h.streamID, h.sequence, s.streamID, s.sequence);
    }
  }

  /** A witness returns one more head exactly for an authentic, well-formed statement of whose stream and sequence it
      returned no other digest: that statement's own. */
  lemma WitnessAnswersExactly(run: seq<Observation>, next: Observation)
    ensures var s := next.signed.statement; var before := WitnessRun(run).returned;
            WitnessRun(run + [next]).returned
            == if Authentic(next.trust, next.signed) && WellFormed(s)
                  && !exists h :: h in before && h.streamID == s.streamID && h.sequence == s.sequence
                                  && h.statementSHA256 != Hex(StatementHash(s), "", "")
               then before + [Head(s.streamID, s.sequence, Hex(StatementHash(s), "", ""))] else before
  {
    hide Authentic, WellFormed, TrustFault, HeadKey;
    assert (run + [next])[..|run|] == run;
    TrustedExactly(next.trust, next.signed);
    if Authentic(next.trust, next.signed) && WellFormed(next.signed.statement) { EquivocationExact(run, next); }
  }
}
