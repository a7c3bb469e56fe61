/** Digest texts: what a field that should hold a hexadecimal SHA-256 value may hold.  SHA-256 itself is
    idealised: a digest is the term that was hashed, so hashing is injective and the domains are disjoint. */
module DigestTexts {
  import opened Text

  /** `Hex` is a text that decodes to a 32-byte value; `casing` records which letters are upper case and
      `padding` any surrounding white space.  Every other text is `NotHex`. */
  datatype DigestText<+D> = Hex(value: D, casing: string, padding: string) | NotHex(text: string)

  /** `hex.EncodeToString`. */
  function Encode<D>(d: D): DigestText<D> { Hex(d, "", "") }

  function Absent<D>(): DigestText<D> { NotHex("") }

  /** `isSHA256`: exactly 64 lower-case hexadecimal characters. */
  predicate IsDigest<D>(t: DigestText<D>) { t.Hex? && t.casing == "" && t.padding == "" }

  /** `hex.DecodeString` to 32 bytes: upper case is accepted, white space is not. */
  predicate Decodes<D>(t: DigestText<D>) { t.Hex? && t.padding == "" }

  /** `strings.TrimSpace(t) == ""`. */
  predicate IsBlank<D>(t: DigestText<D>) { t.NotHex? && Blank(t.text) }

  /** `strings.ToLower(strings.TrimSpace(t))`. */
  function Canonical<D>(t: DigestText<D>): DigestText<D> {
    match t
    case Hex(d, _, _) => Encode(d)
    case NotHex(text) => NotHex(LowerTrim(text))
  }
}

/** The value types of evidencebinding: leaves, statements, events and the digests over them. */
module Evidence {
  import opened Results
  import opened Numbers
  import opened Text
  import opened DigestTexts

  type HexDigest = DigestText<Digest>

  /** 32-byte values.  The three evidence domains and payload hashing are free constructors; `OtherBytes`
      stands for values that no modelled hash produced. */
  datatype Digest =
    | LeafHash(leaf: Leaf)
    | NodeHash(left: Digest, right: Digest)
    | StatementHash(statement: Statement)
    | PayloadHash(event: AgentEvent)
    | OtherBytes(tag: nat)

  datatype Leaf = Leaf(id: string, subject: string, kind: string, payloadSHA256: HexDigest, observedAtUnix: int)

  datatype Statement = Statement(
    version: string, streamID: string, sequence: U64, previousSHA256: HexDigest, merkleRootSHA256: HexDigest,
    leafCount: int, issuedAtUnix: int, signerKeyID: string, nonce: string)

  datatype AgentEvent = AgentEvent(
    version: string, id: string, kind: string, subject: string, observedAtUnix: int, details: map<string, string>)

  datatype Error =
    | InvalidEvidence | InvalidProof | InvalidSignature | UntrustedSigner | BrokenChain | WrongStream
    | HeadMismatch | Equivocation | DuplicateEvidence | NoEntropy | AnchorFailed
    | WriteFailed | SyncFailed | LineTooLong

  /** The position of a stream.  `D` is how the digest text is represented. */
  datatype Head<+D> = Head(streamID: string, sequence: U64, statementSHA256: D)

  datatype AnchorStatement<+D> = AnchorStatement(version: string, streamID: string, sequence: U64, statementSHA256: D)

  datatype AnchorReceipt<+D> = AnchorReceipt(
    version: string, provider: string, statement: AnchorStatement<D>, externalID: string, proofSHA256: string,
    committed: bool, blockNumber: U64)

  const VERSION := "weaverssh.evidence-binding.v1"

  predicate ValidLeaf(l: Leaf) {
    !Blank(l.id) && !Blank(l.subject) && !Blank(l.kind) && IsDigest(l.payloadSHA256) && l.observedAtUnix > 0
  }

  /** `Statement.Validate`: `None` when the statement is well formed. */
  function StatementFault(s: Statement): Option<Error> {
    if s.version != VERSION || Blank(s.streamID) || s.sequence == 0 || s.leafCount <= 0 || s.issuedAtUnix <= 0
       || Blank(s.signerKeyID) || Blank(s.nonce) || !IsDigest(s.merkleRootSHA256) then Some(InvalidEvidence)
    else if s.sequence == 1 then if IsBlank(s.previousSHA256) then None else Some(BrokenChain)
    else if IsDigest(s.previousSHA256) then None else Some(BrokenChain)
  }
}
