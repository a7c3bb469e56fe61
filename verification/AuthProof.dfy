/** Signed grants and signed node contexts: normalisation, validation, and verification through a shared nonce cache. */
module AuthProof {
  import opened Results
  import opened Numbers
  import opened Text
  import opened Replay

  const VERSION := "weaverssh.auth.v1"
  const ALGORITHM := "Ed25519"
  const NODE_CONTEXT_VERSION := "weaverssh.node-context.v1"
  const AUDIENCE_NODE_CONTEXT := "wv-node-context"
  const CAPABILITY_NODE_CONTEXT := "node.context"
  const KNOWN_CAPABILITIES := {"x11.relay", "websocket.upgrade", "socks.proxy", "file.backhaul",
                               "vfs.mesh", "node.context",
                               "compute.mapreduce"}
  datatype AuthError =
    | InvalidGrant | InvalidSignature | ExpiredGrant | NotYetValid | WrongAudience | WrongSubject | MissingCapability
    | WrongX11CookieHash | WrongChainHash | GrantTTLTooLong | Replayed | InvalidSecurityLevel | WrongSecurityLevel

  datatype Key = Key(id: nat)

  /** A signature field: a well-formed signature, idealised as the key and the payload it was made for, or not. */
  datatype SignatureText<+P> = SignatureOf(key: Key, payload: P) | OtherSignature(tag: nat) | Malformed(text: string)

  /** `time.Duration(seconds) * time.Second`. */
  function Duration(seconds: int): int { Wrap64(Wrap64(seconds) * SECOND) }

  /** The longest lifetime, in seconds, whose nanoseconds fit a Go duration: about 292 years. */
  const MAX_LIFETIME := 9_223_372_036

  /** A lifetime that passes a limit is within it exactly when its nanoseconds fit a duration. */
  lemma DurationExact(seconds: int, limit: int)
    requires 0 < seconds < 0x8000_0000_0000_0000 && limit < 0x8000_0000_0000_0000 && Duration(seconds) <= limit
    ensures seconds * SECOND <= limit <==> seconds <= MAX_LIFETIME
  {
    assert Wrap64(seconds) == seconds;
    if seconds <= MAX_LIFETIME { assert Wrap64(seconds * SECOND) == seconds * SECOND; }
  }

  // ---------------------------------------------------------------------------------------------
  // Grants

  datatype Grant = Grant(
    version: string, algorithm: string, issuerPeerID: string, subjectPeerID: string,
    audience: string, sessionID: string,
    capabilities: seq<string>, securityLevel: string, x11CookieSHA256: string, chainSHA256: string, nonce: string,
    issuedAtUnix: int, expiresAtUnix: int)

  datatype SignedGrant = SignedGrant(grant: Grant, signature: SignatureText<Grant>)

  datatype GrantOptions = GrantOptions(
    audience: string, subjectPeerID: string, requiredCapabilities: seq<string>, securityLevel: string,
    x11CookieSHA256: string, chainSHA256: string, maxTTL: int)

  function NormalizeCapabilities(caps: seq<string>): seq<string> { SortTexts(DistinctTrimmed(caps)) }

  function NormalizeSecurityLevel(level: string): string {
    var folded := LowerTrim(ReplaceChar(level, '-', '_'));
    if folded in {"", "auto", "compat"} then "compat"
    else if folded in {"sameuid", "same_uid", "uid"} then "same_uid"
    else if folded in {"cookie", "x11", "x11_cookie", "mit_cookie", "mit_magic_cookie"} then "x11_cookie"
    else if folded in {"agent", "agent_proof", "ssh_agent", "ssh_agent_proof", "key_proof", "private_key"}
    then "agent_proof"
    else if folded == "strict" then "strict"
    else LowerTrim(level)
  }

  predicate KnownSecurityLevel(level: string) {
    NormalizeSecurityLevel(level) in {"compat", "same_uid", "x11_cookie", "agent_proof", "strict"}
  }

  function NormalGrant(g: Grant): Grant {
    var level := NormalizeSecurityLevel(g.securityLevel);
    Grant(if g.version == "" then VERSION else g.version, if g.algorithm == "" then ALGORITHM else g.algorithm,
          TrimSpace(g.issuerPeerID), TrimSpace(g.subjectPeerID), TrimSpace(g.audience), TrimSpace(g.sessionID),
          NormalizeCapabilities(g.capabilities), if level == "compat" then "" else level,
          LowerTrim(g.x11CookieSHA256), LowerTrim(g.chainSHA256), TrimSpace(g.nonce), g.issuedAtUnix, g.expiresAtUnix)
  }

  /** The capabilities in the form they are compared in: the nonempty trimmed entries, each once, in rising order. */
  lemma CapabilitiesExact(caps: seq<string>)
    ensures StrictlySorted(NormalizeCapabilities(caps))
    ensures forall x :: x in NormalizeCapabilities(caps) <==> Listed(x, caps)
  {
    DistinctTrimmedSpec(caps);
    SortTextsSorts(DistinctTrimmed(caps));
    forall x ensures x in NormalizeCapabilities(caps) <==> Listed(x, caps) {
      SortTextsMembers(DistinctTrimmed(caps), x);
      DistinctTrimmedMembers(caps, x);
    }
  }

  lemma CapabilitiesAgain(caps: seq<string>)
    ensures NormalizeCapabilities(NormalizeCapabilities(caps)) == NormalizeCapabilities(caps)
  {
    hide NormalizeCapabilities, TrimSpace;
    var once := NormalizeCapabilities(caps);
    var twice := NormalizeCapabilities(once);
    CapabilitiesExact(caps);
    CapabilitiesExact(once);
    forall x ensures x in twice <==> x in once {
      if Listed(x, once) {
        var i :| 0 <= i < |once| && TrimSpace(once[i]) == x;
        assert once[i] in once;
        ListedTrimmed(once[i], caps);
      }
      if x in once {
        var i :| 0 <= i < |once| && once[i] == x;
        ListedTrimmed(x, caps);
        assert TrimSpace(once[i]) == x;
      }
    }
    SortedUnique(twice, once);
  }

  lemma ListedTrimmed(x: string, caps: seq<string>)
    requires Listed(x, caps)
    ensures TrimSpace(x) == x
  {
    hide TrimSpace;
    var i :| 0 <= i < |caps| && TrimSpace(caps[i]) == x;
    TrimIdempotent(caps[i]);
  }

  /** Lower-case letters, digits and underscores only. */
  predicate IsWord(level: string) {
    forall i :: 0 <= i < |level| ==> 'a' <= level[i] <= 'z' || '0' <= level[i] <= '9' || level[i] == '_'
  }

  lemma WordIsFolded(level: string)
    requires IsWord(level)
    ensures LowerTrim(ReplaceChar(level, '-', '_')) == level
  {
    hide TrimSpace;
    assert ReplaceChar(level, '-', '_') == level;
    TrimSpaceTrimmed(level);
    assert ToLower(level) == level;
  }

  lemma ShortWords()
    ensures IsWord("") && IsWord("auto") && IsWord("compat") && IsWord("uid") && IsWord("strict") && IsWord("agent")
  {}

  lemma UserWords()
    ensures IsWord("sameuid") && IsWord("same_uid")
  {}

  lemma CookieWords()
    ensures IsWord("cookie") && IsWord("x11") && IsWord("x11_cookie") && IsWord("mit_cookie")
  {}

  lemma MagicCookieWord()
    ensures IsWord("mit_magic_cookie")
  {}

  lemma AgentWords()
    ensures IsWord("agent_proof") && IsWord("ssh_agent") && IsWord("key_proof")
  {}

  lemma KeyWords()
    ensures IsWord("ssh_agent_proof") && IsWord("private_key")
  {}

  /** The five levels and their other names. */
  lemma LevelNames(level: string)
    ensures level in {"", "auto", "compat"} ==> NormalizeSecurityLevel(level) == "compat"
    ensures level in {"sameuid", "same_uid", "uid"} ==> NormalizeSecurityLevel(level) == "same_uid"
    ensures level in {"cookie", "x11", "x11_cookie", "mit_cookie", "mit_magic_cookie"} ==>
              NormalizeSecurityLevel(level) == "x11_cookie"
    ensures level in {"agent", "agent_proof", "ssh_agent", "ssh_agent_proof", "key_proof", "private_key"} ==>
              NormalizeSecurityLevel(level) == "agent_proof"
    ensures level == "strict" ==> NormalizeSecurityLevel(level) == "strict"
  {
    hide LowerTrim, IsWord;
    ShortWords();
    UserWords();
    CookieWords();
    MagicCookieWord();
    AgentWords();
    KeyWords();
    if IsWord(level) { WordIsFolded(level); }
  }

  /** A level in its normal form stays as it is; and an unknown one is only trimmed and lower-cased. */
  lemma SecurityLevelAgain(level: string)
    ensures NormalizeSecurityLevel(NormalizeSecurityLevel(level)) == NormalizeSecurityLevel(level)
  {
    hide LowerTrim;
    var once := NormalizeSecurityLevel(level);
    if once in {"compat", "same_uid", "x11_cookie", "agent_proof", "strict"} {
      LevelNames(once);
    } else {
      LowerTrimIdempotent(level);
      LowerTrimReplace(level);
      LowerTrimReplace(once);
    }
  }

  /** Normalising a grant twice changes nothing more: a signature over the normal form can be checked on either. */
  lemma NormalGrantIdempotent(g: Grant)
    ensures NormalGrant(NormalGrant(g)) == NormalGrant(g)
    ensures NormalizeSecurityLevel(NormalGrant(g).securityLevel) == NormalizeSecurityLevel(g.securityLevel)
    ensures NormalGrant(g).securityLevel == "" <==> NormalizeSecurityLevel(g.securityLevel) == "compat"
  {
    hide TrimSpace, LowerTrim, NormalizeCapabilities, NormalizeSecurityLevel;
    TrimIdempotent(g.issuerPeerID);
    TrimIdempotent(g.subjectPeerID);
    TrimIdempotent(g.audience);
    TrimIdempotent(g.sessionID);
    TrimIdempotent(g.nonce);
    LowerTrimIdempotent(g.x11CookieSHA256);
    LowerTrimIdempotent(g.chainSHA256);
    CapabilitiesAgain(g.capabilities);
    SecurityLevelAgain(g.securityLevel);
    LevelNames("");
  }

  /** `Grant.Validate`. */
  function GrantInvalid(raw: Grant): Option<AuthError> {
    var g := NormalGrant(raw);
    if g.version != VERSION || g.algorithm != ALGORITHM then Some(InvalidGrant)
    else if "" in {g.issuerPeerID, g.subjectPeerID, g.audience, g.sessionID, g.nonce, g.x11CookieSHA256, g.chainSHA256}
    then Some(InvalidGrant)
    else if g.capabilities == [] then Some(InvalidGrant)
    else if g.securityLevel != "" && !KnownSecurityLevel(g.securityLevel) then Some(InvalidSecurityLevel)
    else if !IsSHA256(g.x11CookieSHA256) || !IsSHA256(g.chainSHA256) then Some(InvalidGrant)
    else if g.issuedAtUnix <= 0 || g.expiresAtUnix <= 0 || g.expiresAtUnix <= g.issuedAtUnix then Some(InvalidGrant)
    else if exists c :: c in g.capabilities && c !in KNOWN_CAPABILITIES then Some(InvalidGrant)
    else None
  }

  /** The validity window, as both verifiers check it. */
  function WindowFault(issued: int, expires: int, maxTTL: int, now: int): Option<AuthError> {
    if now < issued then Some(NotYetValid)
    else if now >= expires then Some(ExpiredGrant)
    else if maxTTL > 0 && Duration(expires - issued) > maxTTL then Some(GrantTTLTooLong)
    else None
  }

  /** A second more than that passes every limit, whatever the clock: the product wraps to a negative duration. */
  lemma OverlongLifetimePasses(issued: int, maxTTL: int, now: int)
    requires issued <= now < issued + MAX_LIFETIME + 1
    ensures WindowFault(issued, issued + MAX_LIFETIME + 1, maxTTL, now) == None
  {
    assert Wrap64(MAX_LIFETIME + 1) == MAX_LIFETIME + 1;
    assert Duration(MAX_LIFETIME + 1) < 0;
  }

  /** What `VerifySignedGrant` objects to before it consults the nonce cache; a malformed public key is `None`. */
  function GrantFault(sg: SignedGrant, key: Option<Key>, o: GrantOptions, now: int): Option<AuthError> {
    var g := NormalGrant(sg.grant);
    if key.None? then Some(InvalidGrant)
    else if GrantInvalid(g).Some? then GrantInvalid(g)
    else if sg.signature != SignatureOf(key.value, NormalGrant(g)) then Some(InvalidSignature)
    else if WindowFault(g.issuedAtUnix, g.expiresAtUnix, o.maxTTL, now).Some?
    then WindowFault(g.issuedAtUnix, g.expiresAtUnix, o.maxTTL, now)
    else if o.audience != "" && g.audience != o.audience then Some(WrongAudience)
    else if o.subjectPeerID != "" && g.subjectPeerID != o.subjectPeerID then Some(WrongSubject)
    else if exists c :: c in o.requiredCapabilities && TrimSpace(c) !in g.capabilities then Some(MissingCapability)
    else if o.securityLevel != "" && NormalizeSecurityLevel(g.securityLevel) != NormalizeSecurityLevel(o.securityLevel)
    then Some(WrongSecurityLevel)
    else if o.x11CookieSHA256 != "" && g.x11CookieSHA256 != LowerTrim(o.x11CookieSHA256) then Some(WrongX11CookieHash)
    else if o.chainSHA256 != "" && g.chainSHA256 != LowerTrim(o.chainSHA256) then Some(WrongChainHash)
    else None
  }

  /** Every field has a value, the digests are digests, and level and capabilities are known ones. */
  ghost predicate CompleteGrant(g: Grant) {
    && g.version in {"", "weaverssh.auth.v1"} && g.algorithm in {"", "Ed25519"}
    && !Blank(g.issuerPeerID) && !Blank(g.subjectPeerID) && !Blank(g.audience) && !Blank(g.sessionID)
    && !Blank(g.nonce) && IsSHA256(LowerTrim(g.x11CookieSHA256)) && IsSHA256(LowerTrim(g.chainSHA256))
    && NormalizeSecurityLevel(g.securityLevel) in {"compat", "same_uid", "x11_cookie", "agent_proof", "strict"}
    && (exists x :: Listed(x, g.capabilities)) && (forall x :: Listed(x, g.capabilities) ==> x in KNOWN_CAPABILITIES)
    && 0 < g.issuedAtUnix < g.expiresAtUnix
  }

  /** Issued, not expired, and of no longer lifetime than a limit allows. */
  ghost predicate Current(issued: int, expires: int, maxTTL: int, now: int) {
    issued <= now < expires && (maxTTL > 0 ==> Duration(expires - issued) <= maxTTL)
  }

  /** Each option that is set is met, and every required capability is among those listed. */
  ghost predicate MeetsOptions(g: Grant, o: GrantOptions) {
    && (o.audience == "" || TrimSpace(g.audience) == o.audience)
    && (o.subjectPeerID == "" || TrimSpace(g.subjectPeerID) == o.subjectPeerID)
    && (forall c :: c in o.requiredCapabilities ==> Listed(TrimSpace(c), g.capabilities))
    && (o.securityLevel == "" || NormalizeSecurityLevel(g.securityLevel) == NormalizeSecurityLevel(o.securityLevel))
    && (o.x11CookieSHA256 == "" || LowerTrim(g.x11CookieSHA256) == LowerTrim(o.x11CookieSHA256))
    && (o.chainSHA256 == "" || LowerTrim(g.chainSHA256) == LowerTrim(o.chainSHA256))
  }

  lemma GrantCompleteExactly(g: Grant)
    ensures GrantInvalid(NormalGrant(g)) == None <==> CompleteGrant(g)
  {
    hide TrimSpace, LowerTrim, NormalizeCapabilities, NormalizeSecurityLevel, IsSHA256;
    NormalGrantIdempotent(g);
    CapabilitiesExact(g.capabilities);
    var n := NormalGrant(g);
    LevelNames("");
    EmptyIsNoDigest();
    if n.capabilities != [] { assert n.capabilities[0] in n.capabilities; }
  }

  lemma EmptyIsNoDigest()
    ensures !IsSHA256("")
  {}

  lemma MeetsOptionsExactly(g: Grant, o: GrantOptions)
    ensures MeetsOptions(g, o) <==>
              var n := NormalGrant(g);
              && (o.audience == "" || n.audience == o.audience)
              && (o.subjectPeerID == "" || n.subjectPeerID == o.subjectPeerID)
              && (forall c :: c in o.requiredCapabilities ==> TrimSpace(c) in n.capabilities)
              && (o.securityLevel == ""
                  || NormalizeSecurityLevel(n.securityLevel) == NormalizeSecurityLevel(o.securityLevel))
              && (o.x11CookieSHA256 == "" || n.x11CookieSHA256 == LowerTrim(o.x11CookieSHA256))
              && (o.chainSHA256 == "" || n.chainSHA256 == LowerTrim(o.chainSHA256))
  {
    hide TrimSpace, LowerTrim, NormalizeCapabilities, NormalizeSecurityLevel;
    NormalGrantIdempotent(g);
    CapabilitiesExact(g.capabilities);
  }

  /** A grant passes exactly when its signature is the key's over what the grant says, and it is complete, current and
      meets the options. */
  lemma GrantPassesExactly(sg: SignedGrant, key: Option<Key>, o: GrantOptions, now: int)
    ensures GrantFault(sg, key, o, now) == None
       <==> && key.Some? && sg.signature == SignatureOf(key.value, NormalGrant(sg.grant))
            && CompleteGrant(sg.grant) && Current(sg.grant.issuedAtUnix, sg.grant.expiresAtUnix, o.maxTTL, now)
            && MeetsOptions(sg.grant, o)
  {
    hide TrimSpace, LowerTrim, NormalizeCapabilities, NormalizeSecurityLevel, GrantInvalid, MeetsOptions,
         CompleteGrant, Duration;
    NormalGrantIdempotent(sg.grant);
    GrantCompleteExactly(sg.grant);
    MeetsOptionsExactly(sg.grant, o);
  }

  /** Under the signature of a grant that passed, another text passes, for any verifier, only with the same key and the
      same normal form; and with that it passes wherever the first one did. */
  lemma AlteredGrantExactly(sg: SignedGrant, key: Option<Key>, o: GrantOptions, now: int, altered: Grant,
                            k: Option<Key>, p: GrantOptions, later: int)
    requires GrantFault(sg, key, o, now) == None
    ensures GrantFault(SignedGrant(altered, sg.signature), key, o, now) == None
       <==> NormalGrant(altered) == NormalGrant(sg.grant)
    ensures GrantFault(SignedGrant(altered, sg.signature), k, p, later) == None ==>
              k == key && NormalGrant(altered) == NormalGrant(sg.grant)
  {
    hide NormalGrant, CompleteGrant, Current, MeetsOptions, GrantInvalid, WindowFault;
    GrantPassesExactly(sg, key, o, now);
    GrantPassesExactly(SignedGrant(altered, sg.signature), key, o, now);
    GrantPassesExactly(SignedGrant(altered, sg.signature), k, p, later);
    if NormalGrant(altered) == NormalGrant(sg.grant) { TimesKept(altered, sg.grant); }
  }

  lemma TimesKept(a: Grant, b: Grant)
    requires NormalGrant(a) == NormalGrant(b)
    ensures a.issuedAtUnix == b.issuedAtUnix && a.expiresAtUnix == b.expiresAtUnix
  {
    hide TrimSpace, LowerTrim, NormalizeCapabilities, NormalizeSecurityLevel;
  }

  function GrantUse(sg: SignedGrant, now: int): Use {
    Use(TrimSpace(sg.grant.nonce), sg.grant.expiresAtUnix, now)
  }

  /** A grant that passes under a limit lives at most that long exactly when its lifetime fits a duration. */
  lemma GrantLifetimeExact(sg: SignedGrant, key: Option<Key>, o: GrantOptions, now: int)
    requires GrantFault(sg, key, o, now) == None && 0 < o.maxTTL < 0x8000_0000_0000_0000
    requires sg.grant.expiresAtUnix < 0x8000_0000_0000_0000
    ensures var seconds := sg.grant.expiresAtUnix - sg.grant.issuedAtUnix;
            seconds * SECOND <= o.maxTTL <==> seconds <= MAX_LIFETIME
  {
    hide NormalizeCapabilities, NormalizeSecurityLevel, TrimSpace, LowerTrim, Duration;
    DurationExact(sg.grant.expiresAtUnix - sg.grant.issuedAtUnix, o.maxTTL);
  }

  method VerifySignedGrant(sg: SignedGrant, key: Option<Key>, o: GrantOptions, now: int, cache: NonceCache?)
    returns (r: Result<Grant, AuthError>)
    modifies cache
    ensures var fault := GrantFault(sg, key, o, now);
            if fault.Some? then r == Err(fault.value) && (cache != null ==> cache.seen == old(cache.seen))
            else if cache == null then r == Ok(NormalGrant(sg.grant))
            else && r == (if Fresh(old(cache.seen), GrantUse(sg, now)) then Ok(NormalGrant(sg.grant))
                           else Err(Replayed))
                 && cache.seen == SeenAfter(old(cache.seen), GrantUse(sg, now))
  {
    hide GrantFault, NormalizeCapabilities, NormalizeSecurityLevel, TrimSpace, LowerTrim;
    var fault := GrantFault(sg, key, o, now);
    if fault.Some? { return Err(fault.value); }
    var grant := NormalGrant(sg.grant);
    if cache != null {
      var stored := cache.CheckAndStore(grant.nonce, grant.expiresAtUnix, now);
      if !stored { return Err(Replayed); }
    }
    return Ok(grant);
  }

  // ---------------------------------------------------------------------------------------------
  // Node contexts

  datatype NodeContext = NodeContext(
    version: string, algorithm: string, issuerPeerID: string, audience: string, chainID: string, chainSHA256: string,
    nodes: seq<string>, currentNode: string, originNode: string, endpointNode: string, capabilities: seq<string>,
    nonce: string, issuedAtUnix: int, expiresAtUnix: int)

  datatype SignedNodeContext = SignedNodeContext(context: NodeContext, signature: SignatureText<NodeContext>)

  datatype ContextOptions = ContextOptions(audience: string, chainID: string, chainSHA256: string,
                                         currentNode: string, maxTTL: int)

  method NormalizeNodes(nodes: seq<string>) returns (out: seq<string>)
    ensures out == DistinctTrimmed(nodes)
  {
    hide TrimSpace;
    var seen: set<string> := {};
    out := [];
    for i := 0 to |nodes|
      invariant out == DistinctTrimmed(nodes[..i]) && seen == set x | x in out
    {
      assert nodes[..i + 1][..i] == nodes[..i];
      var node := TrimSpace(nodes[i]);
      if node != "" && node !in seen {
        seen := seen + {node};
        out := out + [node];
      }
    }
    assert nodes[..|nodes|] == nodes;
  }

  function NormalContext(c: NodeContext): NodeContext {
    var nodes, origin, endpoint := DistinctTrimmed(c.nodes), TrimSpace(c.originNode), TrimSpace(c.endpointNode);
    var caps := NormalizeCapabilities(c.capabilities);
    NodeContext(if c.version == "" then NODE_CONTEXT_VERSION else c.version,
                if c.algorithm == "" then ALGORITHM else c.algorithm,
                TrimSpace(c.issuerPeerID), TrimSpace(if c.audience == "" then AUDIENCE_NODE_CONTEXT else c.audience),
                TrimSpace(c.chainID), LowerTrim(c.chainSHA256), nodes, TrimSpace(c.currentNode),
                if origin == "" && nodes != [] then nodes[0] else origin,
                if endpoint == "" && nodes != [] then nodes[|nodes| - 1] else endpoint,
                if caps == [] then [CAPABILITY_NODE_CONTEXT] else caps,
                TrimSpace(c.nonce), c.issuedAtUnix, c.expiresAtUnix)
  }

  /** `NodeContext.Validate`. */
  function ContextInvalid(raw: NodeContext): Option<AuthError> {
    var c := NormalContext(raw);
    if c.version != NODE_CONTEXT_VERSION || c.algorithm != ALGORITHM then Some(InvalidGrant)
    else if "" in {c.issuerPeerID, c.audience, c.chainID, c.chainSHA256, c.currentNode,
                   c.originNode, c.endpointNode, c.nonce}
    then Some(InvalidGrant)
    else if !IsSHA256(c.chainSHA256) || c.nodes == [] then Some(InvalidGrant)
    else if c.currentNode !in c.nodes || c.originNode !in c.nodes || c.endpointNode !in c.nodes then Some(InvalidGrant)
    else if c.originNode != c.nodes[0] || c.endpointNode != c.nodes[|c.nodes| - 1] then Some(InvalidGrant)
    else if CAPABILITY_NODE_CONTEXT !in c.capabilities then Some(MissingCapability)
    else if exists k :: k in c.capabilities && k !in KNOWN_CAPABILITIES then Some(InvalidGrant)
    else if c.issuedAtUnix <= 0 || c.expiresAtUnix <= 0 || c.expiresAtUnix <= c.issuedAtUnix then Some(InvalidGrant)
    else None
  }

  /** What `VerifySignedNodeContext` objects to before it consults the nonce cache. */
  function ContextFault(sc: SignedNodeContext, key: Option<Key>, o: ContextOptions, now: int): Option<AuthError> {
    var c := NormalContext(sc.context);
    if key.None? then Some(InvalidGrant)
    else if ContextInvalid(c).Some? then ContextInvalid(c)
    else if sc.signature != SignatureOf(key.value, NormalContext(c)) then Some(InvalidSignature)
    else if WindowFault(c.issuedAtUnix, c.expiresAtUnix, o.maxTTL, now).Some?
    then WindowFault(c.issuedAtUnix, c.expiresAtUnix, o.maxTTL, now)
    else if o.audience != "" && c.audience != o.audience then Some(WrongAudience)
    else if o.chainID != "" && c.chainID != o.chainID then Some(WrongChainHash)
    else if o.chainSHA256 != "" && c.chainSHA256 != LowerTrim(o.chainSHA256) then Some(WrongChainHash)
    else if o.currentNode != "" && c.currentNode != TrimSpace(o.currentNode) then Some(WrongSubject)
    else None
  }

  /** Normalising a context again changes only an audience of mere white space, which is trimmed away first and then
      read as the default one. */
  lemma NormalContextAgain(c: NodeContext)
    ensures var n := NormalContext(c);
            NormalContext(n) == n.(audience := if n.audience == "" then "wv-node-context" else n.audience)
    ensures NormalContext(NormalContext(NormalContext(c))) == NormalContext(NormalContext(c))
  {
    hide TrimSpace, LowerTrim, NormalizeCapabilities, DistinctTrimmed;
    var n := NormalContext(c);
    TrimIdempotent(c.issuerPeerID);
    TrimIdempotent(c.audience);
    TrimIdempotent(c.chainID);
    TrimIdempotent(c.currentNode);
    TrimIdempotent(c.originNode);
    TrimIdempotent(c.endpointNode);
    TrimIdempotent(c.nonce);
    LowerTrimIdempotent(c.chainSHA256);
    TrimSpaceTrimmed("wv-node-context");
    NodesAgain(c.nodes);
    CapabilitiesAgain(c.capabilities);
    DefaultCapability();
    EndsTrimmed(c);
  }

  lemma NodesAgain(nodes: seq<string>)
    ensures DistinctTrimmed(DistinctTrimmed(nodes)) == DistinctTrimmed(nodes)
  {
    DistinctTrimmedSpec(nodes);
    CleanFixpoint(DistinctTrimmed(nodes));
  }

  lemma EndsTrimmed(c: NodeContext)
    ensures var n := NormalContext(c); TrimSpace(n.originNode) == n.originNode
    ensures var n := NormalContext(c); TrimSpace(n.endpointNode) == n.endpointNode
  {
    hide TrimSpace, LowerTrim, NormalizeCapabilities, DistinctTrimmed;
    TrimIdempotent(c.originNode);
    TrimIdempotent(c.endpointNode);
    DistinctTrimmedSpec(c.nodes);
  }

  lemma DefaultCapability()
    ensures NormalizeCapabilities(["node.context"]) == ["node.context"]
  {
    hide NormalizeCapabilities, TrimSpace;
    TrimSpaceTrimmed("node.context");
    var caps := ["node.context"];
    CapabilitiesExact(caps);
    assert TrimSpace(caps[0]) == "node.context";
    assert Listed("node.context", caps);
    forall x ensures x in NormalizeCapabilities(caps) <==> x in caps {}
    SortedUnique(NormalizeCapabilities(caps), caps);
  }

  /** Every field has a value, the ends and the current node are nodes of the chain, and the capabilities, if any are
      listed, are known ones that include the one for node contexts. */
  ghost predicate CompleteContext(c: NodeContext) {
    var nodes := DistinctTrimmed(c.nodes);
    && c.version in {"", "weaverssh.node-context.v1"} && c.algorithm in {"", "Ed25519"}
    && !Blank(c.issuerPeerID) && !Blank(c.chainID) && !Blank(c.nonce) && IsSHA256(LowerTrim(c.chainSHA256))
    && TrimSpace(c.currentNode) in nodes
    && TrimSpace(c.originNode) in ["", nodes[0]] && TrimSpace(c.endpointNode) in ["", nodes[|nodes| - 1]]
    && (forall x :: Listed(x, c.capabilities) ==>
          x in KNOWN_CAPABILITIES && Listed("node.context", c.capabilities))
    && 0 < c.issuedAtUnix < c.expiresAtUnix
  }

  ghost predicate ContextMeets(c: NodeContext, o: ContextOptions) {
    && (o.audience == "" || (if c.audience == "" then "wv-node-context" else TrimSpace(c.audience)) == o.audience)
    && (o.chainID == "" || TrimSpace(c.chainID) == o.chainID)
    && (o.chainSHA256 == "" || LowerTrim(c.chainSHA256) == LowerTrim(o.chainSHA256))
    && (o.currentNode == "" || TrimSpace(c.currentNode) == TrimSpace(o.currentNode))
  }

  lemma CapabilitiesComplete(caps: seq<string>)
    ensures var n := if NormalizeCapabilities(caps) == [] then ["node.context"] else NormalizeCapabilities(caps);
            ("node.context" in n && forall k :: k in n ==> k in KNOWN_CAPABILITIES)
            <==> forall x :: Listed(x, caps) ==> x in KNOWN_CAPABILITIES && Listed("node.context", caps)
  {
    hide NormalizeCapabilities, Listed;
    CapabilitiesExact(caps);
    var n := NormalizeCapabilities(caps);
    if n != [] { assert n[0] in n; }
  }

  lemma NodesComplete(c: NodeContext)
    ensures var n := NormalContext(c);
            && n.nodes == DistinctTrimmed(c.nodes)
            && (n.nodes != [] ==>
                  && (n.originNode == n.nodes[0] <==> TrimSpace(c.originNode) in ["", n.nodes[0]])
                  && (n.endpointNode == n.nodes[|n.nodes| - 1]
                      <==> TrimSpace(c.endpointNode) in ["", n.nodes[|n.nodes| - 1]])
                  && "" !in n.nodes && n.nodes[0] in n.nodes && n.nodes[|n.nodes| - 1] in n.nodes)
  {
    hide TrimSpace, LowerTrim, NormalizeCapabilities, DistinctTrimmed;
    DistinctTrimmedSpec(c.nodes);
  }

  lemma ContextCompleteExactly(c: NodeContext)
    ensures ContextInvalid(NormalContext(c)) == None <==> CompleteContext(c)
  {
    hide TrimSpace, LowerTrim, NormalizeCapabilities, DistinctTrimmed, IsSHA256, Listed;
    NormalContextAgain(c);
    EmptyIsNoDigest();
    CapabilitiesComplete(c.capabilities);
    NodesComplete(c);
  }

  /** A context passes exactly when its signature is the key's over what the context says, and it is complete, current
      and meets the options. */
  lemma ContextPassesExactly(sc: SignedNodeContext, key: Option<Key>, o: ContextOptions, now: int)
    ensures ContextFault(sc, key, o, now) == None
       <==> && key.Some? && sc.signature == SignatureOf(key.value, NormalContext(NormalContext(sc.context)))
            && CompleteContext(sc.context)
            && Current(sc.context.issuedAtUnix, sc.context.expiresAtUnix, o.maxTTL, now)
            && ContextMeets(sc.context, o)
  {
    hide TrimSpace, LowerTrim, NormalizeCapabilities, DistinctTrimmed, ContextInvalid, CompleteContext, Duration;
    ContextCompleteExactly(sc.context);
    TrimSpaceTrimmed("wv-node-context");
  }

  /** Under the signature of a context that passed, another text passes, for any verifier, only with the same key and
      the same signed form; and with that it passes wherever the first one did and no audience was asked for. */
  lemma AlteredContextExactly(sc: SignedNodeContext, key: Option<Key>, o: ContextOptions, now: int,
                              altered: NodeContext, k: Option<Key>, p: ContextOptions, later: int)
    requires ContextFault(sc, key, o, now) == None
    ensures o.audience == "" ==>
              (ContextFault(SignedNodeContext(altered, sc.signature), key, o, now) == None
               <==> NormalContext(NormalContext(altered)) == NormalContext(NormalContext(sc.context)))
    ensures ContextFault(SignedNodeContext(altered, sc.signature), k, p, later) == None ==>
              k == key && NormalContext(NormalContext(altered)) == NormalContext(NormalContext(sc.context))
  {
    hide NormalContext, CompleteContext, Current, ContextMeets, ContextInvalid, WindowFault, TrimSpace, LowerTrim;
    ContextPassesExactly(sc, key, o, now);
    ContextPassesExactly(SignedNodeContext(altered, sc.signature), k, p, later);
    ContextPassesExactly(SignedNodeContext(altered, sc.signature), key, o, now);
    if NormalContext(NormalContext(altered)) == NormalContext(NormalContext(sc.context)) {
      NormalContextAgain(altered);
      NormalContextAgain(sc.context);
      SameInvalid(altered, sc.context);
    }
  }

  lemma SameInvalid(a: NodeContext, b: NodeContext)
    requires NormalContext(NormalContext(a)) == NormalContext(NormalContext(b))
    ensures ContextInvalid(NormalContext(a)) == ContextInvalid(NormalContext(b))
  {
    hide NormalContext;
  }

  function ContextUse(sc: SignedNodeContext, now: int): Use {
    Use(TrimSpace(sc.context.nonce), sc.context.expiresAtUnix, now)
  }

  lemma ContextLifetimeExact(sc: SignedNodeContext, key: Option<Key>, o: ContextOptions, now: int)
    requires ContextFault(sc, key, o, now) == None && 0 < o.maxTTL < 0x8000_0000_0000_0000
    requires sc.context.expiresAtUnix < 0x8000_0000_0000_0000
    ensures var seconds := sc.context.expiresAtUnix - sc.context.issuedAtUnix;
            seconds * SECOND <= o.maxTTL <==> seconds <= MAX_LIFETIME
  {
    hide NormalizeCapabilities, TrimSpace, LowerTrim, Duration, DistinctTrimmed;
    DurationExact(sc.context.expiresAtUnix - sc.context.issuedAtUnix, o.maxTTL);
  }

  method VerifySignedNodeContext(sc: SignedNodeContext, key: Option<Key>, o: ContextOptions, now: int,
                                 cache: NonceCache?)
    returns (r: Result<NodeContext, AuthError>)
    modifies cache
    ensures var fault := ContextFault(sc, key, o, now);
            if fault.Some? then r == Err(fault.value) && (cache != null ==> cache.seen == old(cache.seen))
            else if cache == null then r == Ok(NormalContext(sc.context))
            else && r == (if Fresh(old(cache.seen), ContextUse(sc, now)) then Ok(NormalContext(sc.context))
                           else Err(Replayed))
                 && cache.seen == SeenAfter(old(cache.seen), ContextUse(sc, now))
  {
    hide ContextFault, NormalizeCapabilities, DistinctTrimmed, TrimSpace, LowerTrim;
    var fault := ContextFault(sc, key, o, now);
    if fault.Some? { return Err(fault.value); }
    var context := NormalContext(sc.context);
    if cache != null {
      var stored := cache.CheckAndStore(context.nonce, context.expiresAtUnix, now);
      if !stored { return Err(Replayed); }
    }
    return Ok(context);
  }

  // ---------------------------------------------------------------------------------------------
  // Runs over one shared cache

  /** One verification with the clock it reads. */
  datatype Attempt =
    | OfGrant(grant: SignedGrant, key: Option<Key>, grantOptions: GrantOptions, now: int)
    | OfContext(context: SignedNodeContext, key: Option<Key>, contextOptions: ContextOptions, now: int)

  function Fault(a: Attempt): Option<AuthError> {
    match a
    case OfGrant(sg, key, o, now) => GrantFault(sg, key, o, now)
    case OfContext(sc, key, o, now) => ContextFault(sc, key, o, now)
  }

  function UseOf(a: Attempt): Use {
    match a
    case OfGrant(sg, _, _, now) => GrantUse(sg, now)
    case OfContext(sc, _, _, now) => ContextUse(sc, now)
  }

  /** The uses a run makes of the cache: attempts with a fault never reach it. */
  function Uses(run: seq<Attempt>): seq<Use> {
    if run == [] then []
    else Uses(run[..|run| - 1]) + if Fault(run[|run| - 1]).None? then [UseOf(run[|run| - 1])] else []
  }

  /** The attempts that succeed, oldest first. */
  function Accepted(run: seq<Attempt>): seq<Attempt> {
    if run == [] then []
    else
      var before, a := run[..|run| - 1], run[|run| - 1];
      Accepted(before) + if Fault(a).None? && Fresh(StepAll(EMPTY, Uses(before)).seen, UseOf(a)) then [a] else []
  }

  ghost predicate ClockedRun(run: seq<Attempt>) {
    forall i, j :: 0 <= i < j < |run| ==> run[i].now <= run[j].now
  }

  lemma {:induction false} UsesClocked(run: seq<Attempt>)
    requires ClockedRun(run)
    ensures Clocked(Uses(run)) && (run != [] ==> forall u :: u in Uses(run) ==> u.now <= run[|run| - 1].now)
  {
    hide Fault;
    if run != [] {
      var n := |run| - 1;
      UsesClocked(run[..n]);
      forall u | u in Uses(run[..n]) ensures u.now <= run[n].now {
        assert n > 0 && run[..n][n - 1] == run[n - 1];
      }
    }
  }

  lemma {:induction false} AcceptedTracksCache(run: seq<Attempt>)
    ensures var c := StepAll(EMPTY, Uses(run));
            |c.accepted| == |Accepted(run)| && forall i :: 0 <= i < |Accepted(run)| ==>
              Fault(Accepted(run)[i]).None? && c.accepted[i] == UseOf(Accepted(run)[i])
  {
    hide Fault, UseOf;
    if run != [] {
      var before, a := run[..|run| - 1], run[|run| - 1];
      AcceptedTracksCache(before);
      if Fault(a).None? {
        var uses := Uses(before) + [UseOf(a)];
        assert uses[..|uses| - 1] == Uses(before);
        assert StepAll(EMPTY, uses) == Step(StepAll(EMPTY, Uses(before)), UseOf(a));
      } else {
        assert Uses(run) == Uses(before);
      }
    }
  }

  lemma InWindow(a: Attempt)
    requires Fault(a).None?
    ensures a.now < UseOf(a).expires
  {
    hide NormalizeCapabilities, DistinctTrimmed, TrimSpace, LowerTrim, GrantInvalid,
         ContextInvalid, NormalizeSecurityLevel;
  }

  /** The same proof once normalised: what the signature covers. */
  predicate SameProof(a: Attempt, b: Attempt) {
    || (a.OfGrant? && b.OfGrant? && NormalGrant(a.grant.grant) == NormalGrant(b.grant.grant))
    || (a.OfContext? && b.OfContext?
        && NormalContext(NormalContext(a.context.context)) == NormalContext(NormalContext(b.context.context)))
  }

  lemma SameProofSameUse(a: Attempt, b: Attempt)
    requires SameProof(a, b)
    ensures UseOf(a).nonce == UseOf(b).nonce && UseOf(a).expires == UseOf(b).expires
  {
    hide NormalizeCapabilities, DistinctTrimmed, TrimSpace, LowerTrim, NormalizeSecurityLevel;
    if a.OfContext? {
      TrimIdempotent(a.context.context.nonce);
      TrimIdempotent(b.context.context.nonce);
    }
  }

  /** Over every run on one shared cache under a clock that never goes back, no signed grant and no signed node
      context is accepted twice; a nonce comes back only after the earlier proof expired. */
  lemma NoProofAcceptedTwice(run: seq<Attempt>, i: nat, j: nat)
    requires ClockedRun(run) && i < j < |Accepted(run)|
    ensures !SameProof(Accepted(run)[i], Accepted(run)[j])
    ensures UseOf(Accepted(run)[i]).nonce == UseOf(Accepted(run)[j]).nonce ==>
              UseOf(Accepted(run)[i]).expires <= Accepted(run)[j].now
  {
    hide Fault, SameProof, GrantUse, ContextUse;
    UsesClocked(run);
    AcceptedTracksCache(run);
    var a, b := Accepted(run)[i], Accepted(run)[j];
    if UseOf(a).nonce == UseOf(b).nonce {
      AcceptedAgainOnlyAfterExpiry(Uses(run), i, j);
      UseTime(b);
    }
    if SameProof(a, b) {
      SameProofSameUse(a, b);
      InWindow(b);
    }
  }

  lemma UseTime(a: Attempt)
    ensures UseOf(a).now == a.now
  {
    hide TrimSpace;
  }

  /** A faultless attempt is refused exactly when an accepted proof with its nonce has not expired. */
  lemma RefusedExactlyWhileLive(run: seq<Attempt>, a: Attempt)
    requires ClockedRun(run + [a]) && Fault(a).None?
    ensures !Fresh(StepAll(EMPTY, Uses(run)).seen, UseOf(a))
       <==> exists i :: 0 <= i < |Accepted(run)| && UseOf(Accepted(run)[i]).nonce == UseOf(a).nonce
                        && UseOf(Accepted(run)[i]).expires > a.now
  {
    hide Fault, GrantUse, ContextUse, Fresh;
    var all := run + [a];
    assert all[..|run|] == run;
    UsesClocked(all);
    AcceptedTracksCache(run);
    assert Uses(all) == Uses(run) + [UseOf(a)];
    RefusedExactly(Uses(run), UseOf(a));
    UseTime(a);
    var c := StepAll(EMPTY, Uses(run));
    if !Fresh(c.seen, UseOf(a)) {
      var u :| u in c.accepted && u.nonce == UseOf(a).nonce && u.expires > UseOf(a).now;
      var i :| 0 <= i < |c.accepted| && c.accepted[i] == u;
    }
  }
}
