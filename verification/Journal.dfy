/** The agent evidence journal: an append-only file of signed, anchored checkpoints that is verified in full when
    it is reopened. */
module Journal {
  import opened Results
  import opened Text
  import opened DigestTexts
  import opened Evidence
  import opened Merkle
  import opened Ledger

  const AGENT_EVENT_VERSION := "weaverssh.agent-evidence-event.v1"
  const AGENT_JOURNAL_VERSION := "weaverssh.agent-evidence-journal.v1"

  /** The scanner's buffer: a line and its newline must fit. */
  const MAX_LINE_BYTES := 0x40_0000

  type Receipt = AnchorReceipt<HexDigest>

  datatype Record = Record(
    version: string, event: AgentEvent, leaf: Leaf, proof: MerkleProof, statement: SignedStatement,
    head: StreamHead, receipt: Receipt)

  /** What is fixed while a journal is open: `anchored` is the provider's `Verify`, and `lineBytes` the length of a
      record's JSON encoding. */
  datatype Config = Config(
    streamID: string, key: PublicKey, anchored: (StreamHead, Receipt) -> bool, lineBytes: Record -> nat)

  function Trust(c: Config): TrustPolicy { TrustPolicy(map[c.key.keyID := c.key]) }

  predicate ValidEvent(e: AgentEvent) {
    && e.version == AGENT_EVENT_VERSION && !Blank(e.id) && !Blank(e.kind) && !Blank(e.subject) && e.observedAtUnix > 0
    && forall k :: k in e.details ==> !Blank(k)
  }

  /** `verifyRecord`: `None` when the record stands. */
  function RecordFault(c: Config, r: Record): Option<Error> {
    var s := r.statement.statement;
    if r.version != AGENT_JOURNAL_VERSION || !ValidEvent(r.event) then Some(InvalidEvidence)
    else if !ValidLeaf(r.leaf) || r.leaf.id != r.event.id || r.leaf.kind != r.event.kind
            || r.leaf.subject != r.event.subject || r.leaf.payloadSHA256 != Encode(PayloadHash(r.event))
    then Some(InvalidEvidence)
    else if s.streamID != c.streamID || s.signerKeyID != c.key.keyID || s.leafCount != 1
            || s.merkleRootSHA256 == Absent()
    then Some(InvalidEvidence)
    else if !Verifies(r.leaf, s.merkleRootSHA256, r.proof) then Some(InvalidProof)
    else if TrustFault(Trust(c), r.statement).Some? then TrustFault(Trust(c), r.statement)
    else if r.head != Head(c.streamID, s.sequence, StatementDigest(s)) then Some(HeadMismatch)
    else if !c.anchored(r.head, r.receipt) then Some(AnchorFailed)
    else None
  }

  function Signed(records: seq<Record>): seq<SignedStatement> {
    seq(|records|, i requires 0 <= i < |records| => records[i].statement)
  }

  /** `verifyRecords` accepts: every record stands, and the statements form a ledger whose head is the last record's. */
  ghost predicate RecordsVerify(c: Config, records: seq<Record>)
    requires |records| < 0x8000_0000_0000_0000
  {
    && records != []
    && (forall i :: 0 <= i < |records| ==> RecordFault(c, records[i]) == None)
    && LedgerAccepted(Signed(records), Trust(c), JournalOptions(c, records))
  }

  function JournalOptions(c: Config, records: seq<Record>): VerifyOptions
    requires records != []
  {
    VerifyOptions(c.streamID, Some(records[|records| - 1].head))
  }

  function RecordsReport(c: Config, records: seq<Record>): VerificationReport
    requires 0 < |records| < 0x8000_0000_0000_0000
  {
    var stream := ExpectedStream(Signed(records), JournalOptions(c, records));
    VerificationReport(stream, |records|, LedgerHead(Signed(records), stream), true, true)
  }

  /** The error returned: the first faulty record's, or else the ledger's. */
  ghost predicate RecordsReports(c: Config, records: seq<Record>, e: Error) {
    if records == [] then e == InvalidEvidence
    else if forall i :: 0 <= i < |records| ==> RecordFault(c, records[i]) == None
    then LedgerReports(Signed(records), Trust(c), JournalOptions(c, records), e)
    else exists i :: 0 <= i < |records| && RecordFault(c, records[i]) == Some(e)
                     && forall j :: 0 <= j < i ==> RecordFault(c, records[j]) == None
  }

  method VerifyRecords(c: Config, records: seq<Record>) returns (r: Result<VerificationReport, Error>)
    requires |records| < 0x8000_0000_0000_0000
    ensures r.Ok? <==> RecordsVerify(c, records)
    ensures r.Ok? ==> r.value == RecordsReport(c, records)
    ensures r.Err? ==> RecordsReports(c, records, r.error)
  {
    hide RecordFault, LedgerReports, LedgerAccepted;
    if |records| == 0 { return Err(InvalidEvidence); }
    var statements: seq<SignedStatement> := [];
    for i := 0 to |records|
      invariant forall j :: 0 <= j < i ==> RecordFault(c, records[j]) == None
      invariant statements == Signed(records)[..i]
    {
      var fault := RecordFault(c, records[i]);
      if fault.Some? { return Err(fault.value); }
      statements := statements + [records[i].statement];
    }
    assert statements == Signed(records);
    r := VerifyLedger(statements, Trust(c), JournalOptions(c, records));
  }

  // ---------------------------------------------------------------------------------------------
  // Append

  /** The file after `Write` and `Sync`: nothing written, written but not synced, or stored. */
  datatype IO = WriteFails | SyncFails | Stored

  /** One call, with what the environment answers: the random nonce, the provider's receipt, and the file. */
  datatype Call = Append(event: AgentEvent, nonce: Option<string>, receipt: Option<Receipt>, io: IO) | Close | Reopen

  datatype State = State(records: seq<Record>, ids: set<string>, file: seq<Record>, closed: bool)

  function EventLeaf(e: AgentEvent): Leaf {
    Leaf(TrimSpace(e.id), TrimSpace(e.subject), TrimSpace(e.kind), Encode(PayloadHash(e)), e.observedAtUnix)
  }

  function LastDigest(records: seq<Record>): HexDigest {
    if records == [] then Absent() else records[|records| - 1].head.statementSHA256
  }

  /** The checkpoint over one leaf that extends `records`. */
  function Checkpoint(c: Config, records: seq<Record>, leaf: Leaf, nonce: string): Statement
    requires |records| < 0x8000_0000_0000_0000
  {
    Statement(VERSION, TrimSpace(c.streamID), |records| + 1, Canonical(LastDigest(records)), Encode(LeafHash(leaf)), 1,
              leaf.observedAtUnix, TrimSpace(c.key.keyID), TrimSpace(nonce))
  }

  function NewRecord(c: Config, s: Statement, event: AgentEvent, signed: SignedStatement, receipt: Receipt): Record {
    Record(AGENT_JOURNAL_VERSION, event, EventLeaf(event), MerkleProof(0, 1, []), signed,
           Head(c.streamID, s.sequence, StatementDigest(s)), receipt)
  }

  /** A journal just opened over a file. */
  function Opened(file: seq<Record>): State { State(file, Ids(file), file, false) }

  /** The record an `Append` call would write, or why it is refused before the file is touched. */
  function Prepare(c: Config, j: State, event: AgentEvent, nonce: Option<string>,
                   receipt: Option<Receipt>): Result<Record, Error>
    requires |j.records| < 0x8000_0000_0000_0000
  {
    if !ValidEvent(event) || j.closed then Err(InvalidEvidence)
    else if event.id in j.ids then Err(DuplicateEvidence)
    else if !ValidLeaf(EventLeaf(event)) then Err(InvalidEvidence)
    else if nonce.None? then Err(NoEntropy)
    else
      var s := Checkpoint(c, j.records, EventLeaf(event), nonce.value);
      if StatementFault(s).Some? then Err(StatementFault(s).value)
      else
        var signed := SignStatement(s, c.key);
        if signed.Err? then Err(signed.error)
        else if receipt.None? then Err(AnchorFailed)
        else
          var r := NewRecord(c, s, event, signed.value, receipt.value);
          if RecordFault(c, r).Some? then Err(RecordFault(c, r).value) else Ok(r)
  }

  /** The state after a call.  A journal that cannot be reopened is of no use any more. */
  ghost function Next(c: Config, j: State, call: Call): State
    requires |j.records| < 0x8000_0000_0000_0000 && |j.file| < 0x8000_0000_0000_0000
  {
    if call.Close? then j.(closed := true)
    else if call.Reopen? then if Loads(c, j.file) then Opened(j.file) else j.(closed := true)
    else
      var r := Prepare(c, j, call.event, call.nonce, call.receipt);
      if r.Err? || call.io == WriteFails then j
      else if call.io == SyncFails then j.(file := j.file + [r.value])
      else State(j.records + [r.value], j.ids + {call.event.id}, j.file + [r.value], false)
  }

  function Answer(c: Config, j: State, call: Call): Result<Record, Error>
    requires |j.records| < 0x8000_0000_0000_0000 && call.Append?
  {
    var r := Prepare(c, j, call.event, call.nonce, call.receipt);
    if r.Err? then r
    else if call.io == WriteFails then Err(WriteFailed)
    else if call.io == SyncFails then Err(SyncFailed)
    else r
  }

  class AgentEvidenceJournal {
    const config: Config
    var records: seq<Record>
    var ids: set<string>
    var file: seq<Record>
    var closed: bool

    ghost function Abstract(): State
      reads this
    {
      State(records, ids, file, closed)
    }

    /** An empty journal over the lines of an existing file. */
    constructor (config: Config, file: seq<Record>)
      ensures this.config == config && Abstract() == State([], {}, file, false)
    {
      this.config, this.records, this.ids, this.file, this.closed := config, [], {}, file, false;
    }

    method Append(event: AgentEvent, nonce: Option<string>, receipt: Option<Receipt>, io: IO)
      returns (r: Result<Record, Error>)
      requires |records| < 0x8000_0000_0000_0000 && |file| < 0x8000_0000_0000_0000
      modifies this
      ensures r == old(Answer(config, Abstract(), Call.Append(event, nonce, receipt, io)))
      ensures Abstract() == old(Next(config, Abstract(), Call.Append(event, nonce, receipt, io)))
    {
      hide RecordFault, ValidEvent, ValidLeaf, StatementFault, TrimSpace, Accepts;
      if !ValidEvent(event) || closed { return Err(InvalidEvidence); }
      if event.id in ids { return Err(DuplicateEvidence); }
      var leaf := EventLeaf(event);
      if !ValidLeaf(leaf) { return Err(InvalidEvidence); }
      SingleLeaf(leaf);
      var proof := BuildMerkleProof([leaf], 0);
      var root := BuildMerkleRoot([leaf]);
      var previous: HexDigest := Absent();
      if |records| > 0 { previous := records[|records| - 1].head.statementSHA256; }
      if nonce.None? { return Err(NoEntropy); }
      var statement := Statement(VERSION, TrimSpace(config.streamID), |records| + 1, Canonical(previous), root.value, 1,
                                 event.observedAtUnix, TrimSpace(config.key.keyID), TrimSpace(nonce.value));
      assert statement == Checkpoint(config, records, leaf, nonce.value);
      if StatementFault(statement).Some? { return Err(StatementFault(statement).value); }
      var signed := SignStatement(statement, config.key);
      if signed.Err? { return Err(signed.error); }
      var head := Head(config.streamID, statement.sequence, StatementDigest(statement));
      if receipt.None? { return Err(AnchorFailed); }
      var record := Record(AGENT_JOURNAL_VERSION, event, leaf, proof.value, signed.value, head, receipt.value);
      assert record == NewRecord(config, statement, event, signed.value, receipt.value);
      var fault := RecordFault(config, record);
      if fault.Some? { return Err(fault.value); }
      if io == WriteFails { return Err(WriteFailed); }
      file := file + [record];
      if io == SyncFails { return Err(SyncFailed); }
      records := records + [record];
      ids := ids + {event.id};
      return Ok(record);
    }

    method Close()
      modifies this
      ensures Abstract() == old(Abstract()).(closed := true)
    {
      closed := true;
    }

    /** Reads the file line by line, then verifies the whole chain. */
    method LoadAndVerify() returns (r: Option<Error>)
      requires records == [] && ids == {} && |file| < 0x8000_0000_0000_0000
      modifies this`records, this`ids
      ensures r.None? <==> Loads(config, file)
      ensures r.None? ==> Abstract() == Opened(file).(closed := closed)
      ensures r.Some? ==> LoadReports(config, file, r.value)
    {
      hide RecordFault, RecordsReports;
      for i := 0 to |file|
        invariant records == file[..i] && ids == Ids(file[..i])
        invariant forall j :: 0 <= j < i ==> LineFault(config, file, j) == None
      {
        var record := file[i];
        IdsExact(file[..i], record.event.id);
        if config.lineBytes(record) + 1 > MAX_LINE_BYTES {
          assert LineFault(config, file, i) == Some(LineTooLong);
          return Some(LineTooLong);
        }
        if record.event.id in ids {
          assert LineFault(config, file, i) == Some(DuplicateEvidence);
          return Some(DuplicateEvidence);
        }
        var fault := RecordFault(config, record);
        if fault.Some? {
          assert LineFault(config, file, i) == Some(fault.value);
          return Some(fault.value);
        }
        assert file[..i + 1] == file[..i] + [record];
        records := records + [record];
        ids := ids + {record.event.id};
      }
      assert file[..|file|] == file;
      if |records| > 0 {
        var report := VerifyRecords(config, records);
        if report.Err? { return Some(report.error); }
      }
      return None;
    }
  }

  // ---------------------------------------------------------------------------------------------
  // Reopening

  function Ids(records: seq<Record>): set<string> {
    set r | r in records :: r.event.id
  }

  lemma IdsExact(records: seq<Record>, id: string)
    ensures id in Ids(records) <==> exists j :: 0 <= j < |records| && records[j].event.id == id
  {}

  lemma IdsAppend(records: seq<Record>, r: Record)
    ensures Ids(records + [r]) == Ids(records) + {r.event.id}
    ensures forall i :: 0 <= i < |records| ==> records[i].event.id in Ids(records)
  {
    assert r in records + [r];
    assert forall q :: q in records ==> q in records + [r];
  }

  /** What reading line `i` objects to, after the lines before it were kept. */
  ghost function LineFault(c: Config, file: seq<Record>, i: nat): Option<Error>
    requires i < |file|
  {
    if c.lineBytes(file[i]) + 1 > MAX_LINE_BYTES then Some(LineTooLong)
    else if exists j :: 0 <= j < i && file[..i][j].event.id == file[i].event.id then Some(DuplicateEvidence)
    else RecordFault(c, file[i])
  }

  ghost predicate Loads(c: Config, file: seq<Record>)
    requires |file| < 0x8000_0000_0000_0000
  {
    && (forall i :: 0 <= i < |file| ==> LineFault(c, file, i) == None)
    && (file != [] ==> RecordsVerify(c, file))
  }

  /** The error returned: the first faulty line's, or else that of the whole chain. */
  ghost predicate LoadReports(c: Config, file: seq<Record>, e: Error) {
    || ((forall i :: 0 <= i < |file| ==> LineFault(c, file, i) == None) && RecordsReports(c, file, e))
    || exists i :: 0 <= i < |file| && LineFault(c, file, i) == Some(e)
                   && forall j :: 0 <= j < i ==> LineFault(c, file, j) == None
  }

  lemma SingleLeaf(leaf: Leaf)
    requires ValidLeaf(leaf)
    ensures Accepts([leaf]) && RootOf(LeafHashes([leaf])) == LeafHash(leaf) && ProofSteps(LeafHashes([leaf]), 0) == []
  {
    assert forall i :: 0 <= i < 1 ==> LeafFault([leaf], i) == None;
  }

  // ---------------------------------------------------------------------------------------------
  // Runs

  /** The state after a run of calls on a journal opened over `file`, reopenings included. */
  ghost function Run(c: Config, file: seq<Record>, calls: seq<Call>): (j: State)
    requires |file| + |calls| < 0x8000_0000_0000_0000
    ensures |j.records| <= |file| + |calls| && |j.file| <= |file| + |calls|
  {
    if calls == [] then Opened(file) else Next(c, Run(c, file, calls[..|calls| - 1]), calls[|calls| - 1])
  }

  /** What every call keeps: the records verify with the last head as witness, and the identifiers are theirs. */
  ghost predicate Inv(c: Config, j: State) {
    && |j.records| < 0x8000_0000_0000_0000
    && (j.records != [] ==> RecordsVerify(c, j.records))
    && j.ids == Ids(j.records)
    && forall i, k :: 0 <= i < k < |j.records| ==> j.records[i].event.id != j.records[k].event.id
  }

  lemma RecordFacts(c: Config, r: Record)
    requires RecordFault(c, r) == None
    ensures r.statement.statement.streamID == c.streamID && TrustFault(Trust(c), r.statement) == None
    ensures r.head == Head(c.streamID, r.statement.statement.sequence, StatementDigest(r.statement.statement))
  {}

  lemma PreparedFacts(c: Config, j: State, event: AgentEvent, nonce: Option<string>, receipt: Option<Receipt>)
    requires |j.records| < 0x8000_0000_0000_0000 && Prepare(c, j, event, nonce, receipt).Ok?
    ensures var r := Prepare(c, j, event, nonce, receipt).value;
            && RecordFault(c, r) == None && r.event == event && event.id !in j.ids && !j.closed
            && r.statement.statement.streamID == TrimSpace(c.streamID) != ""
            && r.statement.statement.sequence == |j.records| + 1
            && r.statement.statement.previousSHA256 == Canonical(LastDigest(j.records))
  {
    hide RecordFault, ValidEvent, ValidLeaf;
    var s := Checkpoint(c, j.records, EventLeaf(event), nonce.value);
    assert StatementFault(s) == None;
    TrimSpec(c.streamID, IsSpace);
    TrimSpaceTrimmed(TrimSpace(c.streamID));
  }

  lemma VerifiedHead(c: Config, records: seq<Record>)
    requires 0 < |records| < 0x8000_0000_0000_0000 && RecordsVerify(c, records)
    requires TrimSpace(c.streamID) == c.streamID != ""
    ensures ValidChain(Signed(records), Trust(c), c.streamID)
    ensures LastDigest(records) == PreviousDigest(Signed(records), |records|)
  {
    hide RecordFault, EntryFault;
    var n := |records| - 1;
    assert Signed(records)[n] == records[n].statement;
    RecordFacts(c, records[n]);
  }

  lemma CanonicalPrevious(ledger: seq<SignedStatement>, i: nat)
    requires i <= |ledger|
    ensures Canonical(PreviousDigest(ledger, i)) == PreviousDigest(ledger, i)
  {
    if i == 0 { TrimSpaceTrimmed(""); }
  }

  /** A trusted statement that names the last digest extends a valid chain. */
  lemma ChainExtends(ledger: seq<SignedStatement>, next: SignedStatement, trust: TrustPolicy, stream: string)
    requires ledger == [] || ValidChain(ledger, trust, stream)
    requires next.statement.streamID == stream && next.statement.sequence == |ledger| + 1
    requires next.statement.previousSHA256 == PreviousDigest(ledger, |ledger|) && TrustFault(trust, next) == None
    ensures ValidChain(ledger + [next], trust, stream)
  {
    hide TrustFault;
    var longer := ledger + [next];
    forall i | 0 <= i < |longer| ensures EntryFault(longer, i, trust, stream) == None {
      if i < |ledger| { assert EntryFault(ledger, i, trust, stream) == None; }
    }
  }

  /** A prepared record extends a verified journal to a verified journal. */
  lemma PreparedExtends(c: Config, j: State, event: AgentEvent, nonce: Option<string>, receipt: Option<Receipt>)
    requires Inv(c, j) && |j.records| + 1 < 0x8000_0000_0000_0000
    requires Prepare(c, j, event, nonce, receipt).Ok?
    ensures RecordsVerify(c, j.records + [Prepare(c, j, event, nonce, receipt).value])
  {
    hide RecordFault, Prepare, EntryFault, TrustFault, TrimSpace;
    PreparedFacts(c, j, event, nonce, receipt);
    var r := Prepare(c, j, event, nonce, receipt).value;
    RecordFacts(c, r);
    var ledger := Signed(j.records);
    if j.records != [] { VerifiedHead(c, j.records); }
    CanonicalPrevious(ledger, |ledger|);
    ChainExtends(ledger, r.statement, Trust(c), c.streamID);
    var longer := j.records + [r];
    assert Signed(longer) == ledger + [r.statement];
    forall i | 0 <= i < |longer| ensures RecordFault(c, longer[i]) == None {}
  }

  /** The checkpoint that extends a verified journal is well formed exactly when its texts are not blank. */
  lemma CheckpointWellFormed(c: Config, j: State, leaf: Leaf, nonce: string)
    requires Inv(c, j) && leaf.observedAtUnix > 0
    ensures StatementFault(Checkpoint(c, j.records, leaf, nonce)) == None
       <==> !Blank(c.streamID) && !Blank(c.key.keyID) && !Blank(nonce)
  {
    hide RecordFault, TrimSpace;
    TrimIdempotent(c.streamID);
    TrimIdempotent(c.key.keyID);
    TrimIdempotent(nonce);
    if j.records == [] {
      TrimSpaceTrimmed("");
    } else {
      VerifiedRecord(c, j.records, |j.records| - 1);
      RecordFacts(c, j.records[|j.records| - 1]);
    }
  }

  lemma LeafWellFormed(event: AgentEvent)
    requires ValidEvent(event)
    ensures ValidLeaf(EventLeaf(event)) && event.observedAtUnix > 0
  {
    hide TrimSpace;
    TrimIdempotent(event.id);
    TrimIdempotent(event.subject);
    TrimIdempotent(event.kind);
  }

  /** A freshly built record passes `verifyRecord` exactly when the texts it copies were already trimmed and the
      provider verifies the receipt. */
  lemma NewRecordStands(c: Config, s: Statement, event: AgentEvent, receipt: Receipt)
    requires ValidEvent(event) && StatementFault(s) == None && s.signerKeyID == c.key.keyID && s.leafCount == 1
    requires s.merkleRootSHA256 == Encode(LeafHash(EventLeaf(event)))
    ensures RecordFault(c, NewRecord(c, s, event, SignStatement(s, c.key).value, receipt)) == None
       <==> TrimSpace(event.id) == event.id && TrimSpace(event.kind) == event.kind
            && TrimSpace(event.subject) == event.subject && s.streamID == c.streamID
            && c.anchored(Head(c.streamID, s.sequence, StatementDigest(s)), receipt)
  {
    hide TrimSpace, ValidEvent;
    LeafWellFormed(event);
  }

  /** What `Append` needs before it touches the file, in terms of its inputs: everything else it checks follows. */
  ghost predicate Appendable(c: Config, j: State, event: AgentEvent, nonce: Option<string>, receipt: Option<Receipt>)
    requires |j.records| < 0x8000_0000_0000_0000
  {
    && ValidEvent(event) && !j.closed && event.id !in j.ids
    && TrimSpace(event.id) == event.id && TrimSpace(event.kind) == event.kind
    && TrimSpace(event.subject) == event.subject
    && nonce.Some? && !Blank(nonce.value)
    && !Blank(c.streamID) && TrimSpace(c.streamID) == c.streamID
    && !Blank(c.key.keyID) && TrimSpace(c.key.keyID) == c.key.keyID
    && receipt.Some?
    && var digest := StatementDigest(Checkpoint(c, j.records, EventLeaf(event), nonce.value));
       c.anchored(Head(c.streamID, |j.records| + 1, digest), receipt.value)
  }

  lemma PrepareExact(c: Config, j: State, event: AgentEvent, nonce: Option<string>, receipt: Option<Receipt>)
    requires Inv(c, j)
    ensures Prepare(c, j, event, nonce, receipt).Ok? <==> Appendable(c, j, event, nonce, receipt)
  {
    hide RecordFault, ValidEvent, TrimSpace, StatementFault, ValidLeaf;
    if ValidEvent(event) && nonce.Some? {
      LeafWellFormed(event);
      CheckpointWellFormed(c, j, EventLeaf(event), nonce.value);
      var s := Checkpoint(c, j.records, EventLeaf(event), nonce.value);
      if StatementFault(s) == None && s.signerKeyID == c.key.keyID && receipt.Some? {
        NewRecordStands(c, s, event, receipt.value);
      }
    }
  }

  lemma {:induction false} RunInvariant(c: Config, file: seq<Record>, calls: seq<Call>)
    requires |file| + |calls| < 0x8000_0000_0000_0000 && Loads(c, file)
    ensures Inv(c, Run(c, file, calls))
  {
    hide Prepare, RecordsVerify, Loads;
    if calls == [] {
      LoadedKeeps(c, file);
    } else {
      var before, call := calls[..|calls| - 1], calls[|calls| - 1];
      RunInvariant(c, file, before);
      var j := Run(c, file, before);
      if call.Append? && Prepare(c, j, call.event, call.nonce, call.receipt).Ok? {
        OneMoreKeeps(c, j, call.event, call.nonce, call.receipt);
      } else if call.Reopen? && Loads(c, j.file) {
        LoadedKeeps(c, j.file);
      }
    }
  }

  /** Opening a file establishes what every call keeps; and a file of such records opens exactly when its lines fit. */
  lemma LoadedKeeps(c: Config, file: seq<Record>)
    requires |file| < 0x8000_0000_0000_0000
    ensures Loads(c, file) <==> Inv(c, Opened(file)) && forall r :: r in file ==> c.lineBytes(r) < MAX_LINE_BYTES
  {
    hide RecordFault, RecordsVerify;
    if Loads(c, file) {
      forall i, k | 0 <= i < k < |file| ensures file[i].event.id != file[k].event.id {
        assert LineFault(c, file, k) == None;
        assert file[..k][i] == file[i];
      }
      forall r | r in file ensures c.lineBytes(r) < MAX_LINE_BYTES {
        var i :| 0 <= i < |file| && file[i] == r;
        assert LineFault(c, file, i) == None;
      }
    }
    if Inv(c, Opened(file)) && forall r :: r in file ==> c.lineBytes(r) < MAX_LINE_BYTES {
      forall i | 0 <= i < |file| ensures LineFault(c, file, i) == None {
        assert file[i] in file;
        VerifiedRecord(c, file, i);
      }
    }
  }

  lemma OneMoreKeeps(c: Config, j: State, event: AgentEvent, nonce: Option<string>, receipt: Option<Receipt>)
    requires Inv(c, j) && |j.records| + 1 < 0x8000_0000_0000_0000 && Prepare(c, j, event, nonce, receipt).Ok?
    ensures var r := Prepare(c, j, event, nonce, receipt).value;
            Inv(c, j.(records := j.records + [r], ids := j.ids + {event.id}))
  {
    hide Prepare, RecordsVerify, RecordFault, Ids;
    PreparedExtends(c, j, event, nonce, receipt);
    PreparedFacts(c, j, event, nonce, receipt);
    IdsAppend(j.records, Prepare(c, j, event, nonce, receipt).value);
  }

  /** Every reachable journal passes `verifyRecords` with its last head as witness. */
  lemma ReachableVerifies(c: Config, file: seq<Record>, calls: seq<Call>)
    requires |file| + |calls| < 0x8000_0000_0000_0000 && Loads(c, file)
    ensures Run(c, file, calls).records != [] ==> RecordsVerify(c, Run(c, file, calls).records)
  {
    hide Run, Loads;
    RunInvariant(c, file, calls);
  }

  /** An append is acknowledged exactly when the journal took the record in, which the file then holds as well; one
      that is refused leaves records and identifiers as they were. A closed journal refuses every append. */
  lemma AcknowledgedExactly(c: Config, j: State, event: AgentEvent, nonce: Option<string>, receipt: Option<Receipt>,
                            io: IO)
    requires |j.records| < 0x8000_0000_0000_0000 && |j.file| < 0x8000_0000_0000_0000
    ensures var call := Append(event, nonce, receipt, io);
            var r, after := Answer(c, j, call), Next(c, j, call);
            && (r.Ok? ==> after.records == j.records + [r.value] && after.file == j.file + [r.value]
                          && r.value.event == event && after.ids == j.ids + {event.id} && after.closed == j.closed)
            && (r.Err? ==> after.records == j.records && after.ids == j.ids && after.closed == j.closed)
            && (j.closed ==> r.Err? && after == j)
            && (io == WriteFails ==> r.Err? && after == j) && (io == SyncFails ==> r.Err?)
            && (io == Stored ==> (r.Ok? <==> Prepare(c, j, event, nonce, receipt).Ok?))
  {
    hide RecordFault, ValidLeaf, StatementFault, TrimSpace;
  }

  /** Until it is reopened a closed journal stays exactly as it is. */
  lemma {:induction false} ClosedStays(c: Config, file: seq<Record>, calls: seq<Call>, more: seq<Call>)
    requires |file| + |calls| + 1 + |more| < 0x8000_0000_0000_0000 && forall m :: m in more ==> !m.Reopen?
    ensures Run(c, file, calls + [Close] + more) == Run(c, file, calls).(closed := true)
  {
    hide Prepare, Loads;
    if more == [] {
      assert calls + [Close] + more == calls + [Close] && (calls + [Close])[..|calls|] == calls;
    } else {
      var n := |more| - 1;
      ClosedStays(c, file, calls, more[..n]);
      var all := calls + [Close] + more;
      assert all[..|all| - 1] == calls + [Close] + more[..n] && all[|all| - 1] == more[n];
      assert more[n] in more;
      if more[n].Append? {
        AcknowledgedExactly(c, Run(c, file, calls).(closed := true), more[n].event, more[n].nonce, more[n].receipt,
                            more[n].io);
      }
    }
  }

  // ---------------------------------------------------------------------------------------------
  // Tamper evidence

  /** What a record that stands has in it, field by field. */
  ghost predicate Vouched(c: Config, r: Record) {
    var e, s := r.event, r.statement.statement;
    && r.version == "weaverssh.agent-evidence-journal.v1" && e.version == "weaverssh.agent-evidence-event.v1"
    && !Blank(e.id) && !Blank(e.kind) && !Blank(e.subject) && e.observedAtUnix > 0 && r.leaf.observedAtUnix > 0
    && (forall k :: k in e.details ==> !Blank(k))
    && r.leaf == Leaf(e.id, e.subject, e.kind, Hex(PayloadHash(e), "", ""), r.leaf.observedAtUnix)
    && Authentic(Trust(c), r.statement) && WellFormed(s) && s.streamID == c.streamID && s.leafCount == 1
    && Verifies(r.leaf, s.merkleRootSHA256, r.proof)
    && r.head == Head(s.streamID, s.sequence, Hex(StatementHash(s), "", ""))
    && c.anchored(r.head, r.receipt)
  }

  lemma RecordStandsExactly(c: Config, r: Record)
    ensures RecordFault(c, r) == None <==> Vouched(c, r)
  {
    hide TrustFault, Authentic, WellFormed, TrimSpace, Climb;
    TrustedExactly(Trust(c), r.statement);
    if Authentic(Trust(c), r.statement) { SignerIsKey(c, r.statement); }
  }

  lemma SignerIsKey(c: Config, signed: SignedStatement)
    requires Authentic(Trust(c), signed)
    ensures signed.statement.signerKeyID == c.key.keyID
    ensures signed.publicKey.value == c.key && signed.signature.value == Signature(c.key, signed.statement)
  {}

  /** The root covers the record's own leaf and nothing else, as every root does that `Append` signs. */
  ghost predicate OwnRoot(r: Record) { r.statement.statement.merkleRootSHA256 == Hex(LeafHash(r.leaf), "", "") }

  lemma OnlyProof(leaf: Leaf, other: Leaf, proof: MerkleProof)
    requires Verifies(other, Hex(LeafHash(leaf), "", ""), proof)
    ensures other == leaf && proof == MerkleProof(0, 1, [])
  {
    ClimbDepth(LeafHash(other), proof.index, proof.leafCount, proof.siblings, [LeafHash(leaf)]);
  }

  /** The same in everything but the receipt and the white space around base64 fields. */
  ghost predicate SameEvidence(a: Record, b: Record) {
    && a.version == b.version && a.event == b.event && a.leaf == b.leaf && a.proof == b.proof && a.head == b.head
    && a.statement.statement == b.statement.statement && a.statement.algorithm == b.statement.algorithm
    && a.statement.publicKey.Encoded? && b.statement.publicKey.Encoded?
    && a.statement.publicKey.value == b.statement.publicKey.value
    && a.statement.signature.Encoded? && b.statement.signature.Encoded?
    && a.statement.signature.value == b.statement.signature.value
  }

  /** Two records that stand, for whatever journals, and hold the same statement over one leaf. */
  lemma StatementFixesRecord(c: Config, d: Config, a: Record, b: Record)
    requires Vouched(c, a) && Vouched(d, b) && OwnRoot(a) && a.statement.statement == b.statement.statement
    ensures SameEvidence(a, b)
  {
    hide WellFormed, Verifies, TrimSpace;
    OnlyProof(a.leaf, a.leaf, a.proof);
    OnlyProof(a.leaf, b.leaf, b.proof);
    SignerIsKey(c, a.statement);
    SignerIsKey(d, b.statement);
  }

  ghost predicate SameHistory(a: seq<Record>, b: seq<Record>) {
    |a| == |b| && forall i :: 0 <= i < |a| ==> SameEvidence(a[i], b[i])
  }

  lemma AcceptedHead(c: Config, records: seq<Record>)
    requires 0 < |records| < 0x8000_0000_0000_0000 && RecordsVerify(c, records)
    ensures var stream := ExpectedStream(Signed(records), JournalOptions(c, records));
            && ValidChain(Signed(records), Trust(c), stream)
            && records[|records| - 1].head == LedgerHead(Signed(records), stream)
  {
    hide RecordFault, ValidChain;
  }

  lemma SameStatements(a: seq<Record>, b: seq<Record>)
    requires Statements(Signed(a)) == Statements(Signed(b))
    ensures |a| == |b| && forall i :: 0 <= i < |a| ==> a[i].statement.statement == b[i].statement.statement
  {
    StatementsEqual(Signed(a), Signed(b));
    forall i | 0 <= i < |a| ensures a[i].statement.statement == b[i].statement.statement {
      assert Signed(a)[i].statement == Signed(b)[i].statement;
    }
  }

  /** The last head fixes the whole history: two verified journals, of any streams and keys, end with the same head
      exactly when they hold the same evidence in the same order. */
  lemma LastHeadPinsJournal(c: Config, a: seq<Record>, d: Config, b: seq<Record>)
    requires 0 < |a| < 0x8000_0000_0000_0000 && 0 < |b| < 0x8000_0000_0000_0000
    requires RecordsVerify(c, a) && RecordsVerify(d, b) && forall i :: 0 <= i < |a| ==> OwnRoot(a[i])
    ensures a[|a| - 1].head == b[|b| - 1].head <==> SameHistory(a, b)
  {
    hide RecordFault, RecordsVerify, ValidChain, OwnRoot, Vouched, SameEvidence, LedgerHead;
    if a[|a| - 1].head == b[|b| - 1].head {
      AcceptedHead(c, a);
      AcceptedHead(d, b);
      HeadDeterminesLedger(Signed(a), Signed(b), Trust(c), Trust(d), ExpectedStream(Signed(a), JournalOptions(c, a)),
                           ExpectedStream(Signed(b), JournalOptions(d, b)));
      SameStatements(a, b);
      forall i | 0 <= i < |a| ensures SameEvidence(a[i], b[i]) {
        VerifiedRecord(c, a, i);
        VerifiedRecord(d, b, i);
        RecordStandsExactly(c, a[i]);
        RecordStandsExactly(d, b[i]);
        StatementFixesRecord(c, d, a[i], b[i]);
      }
    }
    if SameHistory(a, b) { SameLast(a, b); }
  }

  lemma SameLast(a: seq<Record>, b: seq<Record>)
    requires SameHistory(a, b) && a != []
    ensures a[|a| - 1].head == b[|b| - 1].head
  {
    assert SameEvidence(a[|a| - 1], b[|b| - 1]);
  }

  /** A line whose event, leaf, proof, statement, key or head was changed while the signature was kept is refused when
      the file is opened, under any configuration. */
  lemma AlteredLineRefused(c: Config, file: seq<Record>, k: nat, altered: Record, d: Config)
    requires k < |file| < 0x8000_0000_0000_0000 && RecordsVerify(c, file) && OwnRoot(file[k])
    requires altered.statement.signature == file[k].statement.signature && !SameEvidence(file[k], altered)
    ensures !Loads(d, file[k := altered])
  {
    hide RecordFault, OwnRoot, Vouched, SameEvidence, RecordsVerify;
    var forged := file[k := altered];
    assert forged[k] == altered;
    if LineFault(d, forged, k) == None {
      VerifiedRecord(c, file, k);
      RecordStandsExactly(c, file[k]);
      RecordStandsExactly(d, altered);
      VouchedAuthentic(c, file[k]);
      VouchedAuthentic(d, altered);
      SignatureFixesStatement(file[k].statement, altered.statement, Trust(c), Trust(d));
      StatementFixesRecord(c, d, file[k], altered);
    }
  }

  lemma VouchedAuthentic(c: Config, r: Record)
    requires Vouched(c, r)
    ensures Authentic(Trust(c), r.statement)
  {
    hide Authentic, WellFormed, Verifies;
  }

  lemma AppendedOwnRoot(c: Config, j: State, event: AgentEvent, nonce: Option<string>, receipt: Option<Receipt>)
    requires |j.records| < 0x8000_0000_0000_0000 && Prepare(c, j, event, nonce, receipt).Ok?
    ensures OwnRoot(Prepare(c, j, event, nonce, receipt).value)
  {
    hide RecordFault, ValidEvent, ValidLeaf, StatementFault;
  }

  lemma {:induction false} RunOwnRoots(c: Config, file: seq<Record>, calls: seq<Call>)
    requires |file| + |calls| < 0x8000_0000_0000_0000 && forall r :: r in file ==> OwnRoot(r)
    ensures forall r :: r in Run(c, file, calls).records || r in Run(c, file, calls).file ==> OwnRoot(r)
  {
    hide Prepare, Loads, OwnRoot;
    if calls != [] {
      var before, call := calls[..|calls| - 1], calls[|calls| - 1];
      RunOwnRoots(c, file, before);
      var j := Run(c, file, before);
      if call.Append? && Prepare(c, j, call.event, call.nonce, call.receipt).Ok? {
        AppendedOwnRoot(c, j, call.event, call.nonce, call.receipt);
      }
    }
  }

  /** An anchored head pins the events: whatever file is presented with the last head of a journal that was written by
      appending, through failures and reopenings, holds exactly the journal's evidence in the journal's order. */
  lemma HeadPinsHistory(c: Config, calls: seq<Call>, d: Config, presented: seq<Record>)
    requires |calls| < 0x8000_0000_0000_0000 && Run(c, [], calls).records != []
    requires 0 < |presented| < 0x8000_0000_0000_0000 && Loads(d, presented)
    ensures var records := Run(c, [], calls).records;
            records[|records| - 1].head == presented[|presented| - 1].head <==> SameHistory(records, presented)
  {
    hide Run, RecordsVerify, OwnRoot, SameHistory, LineFault;
    EmptyLoads(c);
    RunInvariant(c, [], calls);
    RunOwnRoots(c, [], calls);
    LastHeadPinsJournal(c, Run(c, [], calls).records, d, presented);
  }

  /** How the file stands to the records: they are the same; the file has one more line, written but not synced; or a
      line was written after such a line. */
  datatype Standing = Same | OneAhead | Forked

  /** What a written line does to the standing. */
  function AfterWrite(s: Standing, io: IO): Standing {
    match io
    case WriteFails => s
    case SyncFails => if s == Same then OneAhead else Forked
    case Stored => if s == Same then Same else Forked
  }

  ghost function StandingOf(c: Config, file: seq<Record>, calls: seq<Call>): Standing
    requires |file| + |calls| < 0x8000_0000_0000_0000
  {
    if calls == [] then Same
    else
      var before, call := calls[..|calls| - 1], calls[|calls| - 1];
      var j, s := Run(c, file, before), StandingOf(c, file, before);
      match call
      case Close => s
      case Reopen => if Loads(c, j.file) then Same else s
      case Append(event, nonce, receipt, io) =>
        if Prepare(c, j, event, nonce, receipt).Ok? then AfterWrite(s, io) else s
  }

  /** Two lines carry the same sequence number. */
  ghost predicate Clashes(file: seq<Record>) {
    exists i, k :: 0 <= i < k < |file|
                   && file[i].statement.statement.sequence == file[k].statement.statement.sequence
  }

  /** What each standing means. */
  ghost predicate Stands(c: Config, j: State, s: Standing) {
    match s
    case Same => j.file == j.records
    case OneAhead => |j.file| == |j.records| + 1 && j.file[..|j.records|] == j.records && Inv(c, Opened(j.file))
                     && j.file[|j.records|].statement.statement.sequence == |j.records| + 1
    case Forked => Clashes(j.file)
  }

  lemma ClashesOn(file: seq<Record>, r: Record)
    requires Clashes(file)
    ensures Clashes(file + [r])
  {
    var i, k :| 0 <= i < k < |file| && file[i].statement.statement.sequence == file[k].statement.statement.sequence;
    var longer := file + [r];
    assert longer[i] == file[i] && longer[k] == file[k];
  }

  lemma AppendStands(c: Config, j: State, s: Standing, event: AgentEvent, nonce: Option<string>,
                     receipt: Option<Receipt>, io: IO)
    requires Inv(c, j) && |j.records| + 1 < 0x8000_0000_0000_0000 && |j.file| + 1 < 0x8000_0000_0000_0000
    requires Stands(c, j, s) && Prepare(c, j, event, nonce, receipt).Ok?
    ensures Stands(c, Next(c, j, Append(event, nonce, receipt, io)), AfterWrite(s, io))
  {
    hide Prepare, RecordsVerify, RecordFault, Loads, Ids;
    PreparedFacts(c, j, event, nonce, receipt);
    OneMoreKeeps(c, j, event, nonce, receipt);
    var r := Prepare(c, j, event, nonce, receipt).value;
    IdsAppend(j.records, r);
    var longer := j.file + [r];
    if s == OneAhead {
      var n := |j.records|;
      assert longer[n] == j.file[n] && longer[n + 1] == r;
      assert Clashes(longer);
    } else if s == Forked {
      ClashesOn(j.file, r);
    } else {
      assert longer[..|j.records|] == j.records;
    }
  }

  /** The file always stands as the run says. */
  lemma {:induction false} FileTracksRecords(c: Config, file: seq<Record>, calls: seq<Call>)
    requires |file| + |calls| < 0x8000_0000_0000_0000 && Loads(c, file)
    ensures Stands(c, Run(c, file, calls), StandingOf(c, file, calls))
  {
    hide Prepare, Loads, Inv, Clashes, AfterWrite, Ids;
    if calls != [] {
      var before, call := calls[..|calls| - 1], calls[|calls| - 1];
      FileTracksRecords(c, file, before);
      RunInvariant(c, file, before);
      var j := Run(c, file, before);
      if call.Append? && Prepare(c, j, call.event, call.nonce, call.receipt).Ok? {
        AppendStands(c, j, StandingOf(c, file, before), call.event, call.nonce, call.receipt, call.io);
      }
    }
  }

  /** A file in which a sequence number repeats never opens, whatever is appended to it. */
  lemma ClashNeverLoads(c: Config, file: seq<Record>, more: seq<Record>)
    requires Clashes(file) && |file + more| < 0x8000_0000_0000_0000
    ensures !Loads(c, file + more)
  {
    hide RecordFault, TrustFault, Signed, LineFault;
    var all := file + more;
    var i, k :| 0 <= i < k < |file| && file[i].statement.statement.sequence == file[k].statement.statement.sequence;
    assert all[i] == file[i] && all[k] == file[k];
    if Loads(c, all) {
      SequencesCount(c, all, i);
      SequencesCount(c, all, k);
    }
  }

  lemma SequencesCount(c: Config, records: seq<Record>, i: nat)
    requires i < |records| < 0x8000_0000_0000_0000 && RecordsVerify(c, records)
    ensures records[i].statement.statement.sequence == i + 1
  {
    hide RecordFault, TrustFault;
    var stream := ExpectedStream(Signed(records), JournalOptions(c, records));
    assert EntryFault(Signed(records), i, Trust(c), stream) == None;
  }

  /** The file of a reachable journal opens again exactly when nothing was written after an unsynced line and every line
      fits the scanner's buffer. */
  lemma ReopensExactly(c: Config, file: seq<Record>, calls: seq<Call>)
    requires |file| + |calls| < 0x8000_0000_0000_0000 && Loads(c, file)
    ensures var j := Run(c, file, calls);
            Loads(c, j.file) <==>
              StandingOf(c, file, calls) != Forked && forall r :: r in j.file ==> c.lineBytes(r) < MAX_LINE_BYTES
  {
    hide Run, StandingOf, Loads, Inv, Clashes;
    var j := Run(c, file, calls);
    RunInvariant(c, file, calls);
    FileTracksRecords(c, file, calls);
    LoadedKeeps(c, j.file);
    if StandingOf(c, file, calls) == Forked {
      ClashNeverLoads(c, j.file, []);
      assert j.file + [] == j.file;
    } else if StandingOf(c, file, calls) == Same {
      SameRecords(c, j);
    }
  }

  lemma SameRecords(c: Config, j: State)
    requires Inv(c, j)
    ensures Inv(c, Opened(j.records))
  {
    hide RecordsVerify;
  }

  /** It then rebuilds exactly the journal's records and identifiers, or takes in one more record as well: exactly the
      former when no append was left unsynced since the last opening. */
  lemma ReloadRebuilds(c: Config, file: seq<Record>, calls: seq<Call>)
    requires |file| + |calls| < 0x8000_0000_0000_0000 && Loads(c, file)
    ensures var j := Run(c, file, calls);
            (Loads(c, j.file) && j.file == j.records && Ids(j.file) == j.ids)
            <==> StandingOf(c, file, calls) == Same && forall r :: r in j.records ==> c.lineBytes(r) < MAX_LINE_BYTES
  {
    hide Run, StandingOf, Loads, RecordsVerify, Clashes;
    var j := Run(c, file, calls);
    RunInvariant(c, file, calls);
    FileTracksRecords(c, file, calls);
    ReopensExactly(c, file, calls);
  }

  lemma VerifiedRecord(c: Config, records: seq<Record>, i: nat)
    requires i < |records| < 0x8000_0000_0000_0000 && RecordsVerify(c, records)
    ensures RecordFault(c, records[i]) == None
  {
    hide RecordFault;
  }

  /** All of this is reachable: a stored record whose line is one byte too long, and two appends of which the first was
      written but left unsynced. */
  lemma ReloadCanFail(long: bool)
    ensures var c := Config("a", PublicKey("id"), (h, r) => true, r => if long then MAX_LINE_BYTES else 0);
            var first := Append(SampleEvent("e"), Some("n"), Some(SampleReceipt()), if long then Stored else SyncFails);
            var second := Append(SampleEvent("f"), Some("n"), Some(SampleReceipt()), Stored);
            var j := Run(c, [], if long then [first] else [first, second]);
            Loads(c, []) && |j.records| == 1 && !Loads(c, j.file)
  {
    hide RecordFault, Prepare, Loads;
    var c := Config("a", PublicKey("id"), (h, r) => true, r => if long then MAX_LINE_BYTES else 0);
    var io := if long then Stored else SyncFails;
    var first := Append(SampleEvent("e"), Some("n"), Some(SampleReceipt()), io);
    var second := Append(SampleEvent("f"), Some("n"), Some(SampleReceipt()), Stored);
    EmptyLoads(c);
    var j := Opened([]);
    assert Inv(c, j);
    SampleAppends(c, j, "e");
    OneCall(c, [], first);
    ReopensExactly(c, [], [first]);
    if long {
      var after := Next(c, j, first);
      assert after.file[0] in after.file;
    } else {
      var after := Next(c, j, first);
      assert after.records == [] && after.ids == {} && after.closed == false;
      SampleAppends(c, after, "f");
      TwoCalls(c, first, second);
      ReopensExactly(c, [], [first, second]);
    }
  }

  function SampleEvent(id: string): AgentEvent { AgentEvent(AGENT_EVENT_VERSION, id, "k", "s", 1, map[]) }

  function SampleReceipt(): Receipt {
    AnchorReceipt("v", "p", AnchorStatement("v", "a", 1, Absent()), "x", "y", true, 0)
  }

  lemma EmptyLoads(c: Config)
    ensures Loads(c, [])
  {}

  lemma OneCall(c: Config, file: seq<Record>, call: Call)
    requires |file| + 1 < 0x8000_0000_0000_0000
    ensures Run(c, file, [call]) == Next(c, Opened(file), call)
  {
    hide Next;
    assert [call][..0] == [];
  }

  lemma TwoCalls(c: Config, a: Call, b: Call)
    ensures Run(c, [], [a, b]) == Next(c, Run(c, [], [a]), b)
  {
    hide Next;
    assert [a, b][..1] == [a];
  }

  lemma SampleAppends(c: Config, j: State, id: string)
    requires Inv(c, j) && j.ids == {} && !j.closed && id in {"e", "f"}
    requires c.streamID == "a" && c.key.keyID == "id" && forall h, r :: c.anchored(h, r)
    ensures Prepare(c, j, SampleEvent(id), Some("n"), Some(SampleReceipt())).Ok?
  {
    hide RecordFault, Prepare, RecordsVerify;
    TrimSpaceTrimmed(id);
    TrimSpaceTrimmed("k");
    TrimSpaceTrimmed("s");
    TrimSpaceTrimmed("n");
    TrimSpaceTrimmed("a");
    TrimSpaceTrimmed("id");
    assert Appendable(c, j, SampleEvent(id), Some("n"), Some(SampleReceipt()));
    PrepareExact(c, j, SampleEvent(id), Some("n"), Some(SampleReceipt()));
  }
}
