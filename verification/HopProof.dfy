/** Recursive hop chains: each node appends a signed record linked to the one before it, and every recipient checks
    the whole path against the signed topology. */
module HopProof {
  import opened Results
  import opened Numbers
  import opened Text
  import opened DigestTexts
  import opened Replay
  import opened AuthProof

  const CHAIN_VERSION := "weaverssh.hop-chain.v1"
  const HOP_VERSION := "weaverssh.hop.v1"
  const MAX_HOPS := 16

  datatype HopError =
    | InvalidContext | NoNextNode | NoPreviousNode | InvalidChain | WrongHop | ExpiredHop
    | ReplayedHop | BadSignature

  /** Digests over signed records are the records themselves; `OtherHash` stands for any other 32 bytes. */
  datatype HopDigest = HopHash(record: SignedHop) | OtherHash(tag: nat)

  datatype Hop = Hop(
    version: string, chainID: string, chainSHA256: string, rootNode: string, fromNode: string,
    toNode: string, hopIndex: int,
    parentHopSHA256: DigestText<HopDigest>, parentSessionBinding: string, nonce: string,
    issuedAtUnix: int, expiresAtUnix: int)

  /** A base64 field holding a nonempty signature, or any other text. */
  datatype HopSignature = Signature(tag: nat) | NoSignature(text: string)

  datatype SignedHop = SignedHop(principal: string, hop: Hop, signature: HopSignature)

  datatype Chain = Chain(version: string, hops: seq<SignedHop>)

  function NormalHop(h: Hop): Hop {
    Hop(if h.version == "" then HOP_VERSION else h.version, TrimSpace(h.chainID), LowerTrim(h.chainSHA256),
        TrimSpace(h.rootNode), TrimSpace(h.fromNode), TrimSpace(h.toNode), h.hopIndex, Canonical(h.parentHopSHA256),
        TrimSpace(h.parentSessionBinding), TrimSpace(h.nonce), h.issuedAtUnix, h.expiresAtUnix)
  }

  /** `validateHop`, on a normalised hop. */
  predicate ValidHop(h: Hop) {
    && h.version == HOP_VERSION && h.chainID != "" && h.rootNode != "" && h.fromNode != ""
    && h.toNode != "" && h.nonce != ""
    && h.hopIndex > 0 && |h.chainSHA256| == 64
    && (h.parentHopSHA256.NotHex? ==> h.parentHopSHA256.text == "" || |h.parentHopSHA256.text| == 64)
    && h.expiresAtUnix > h.issuedAtUnix
  }

  /** The record as its digest and its links see it. */
  function NormalRecord(s: SignedHop): SignedHop { SignedHop(TrimSpace(s.principal), NormalHop(s.hop), s.signature) }

  function RecordDigest(s: SignedHop): DigestText<HopDigest> { Encode(HopHash(NormalRecord(s))) }

  /** `SignedHopDigest`. */
  function SignedHopDigest(s: SignedHop): Result<DigestText<HopDigest>, HopError> {
    if Blank(s.principal) || s.signature == NoSignature("") then Err(InvalidChain) else Ok(RecordDigest(s))
  }

  lemma NormalHopIdempotent(h: Hop)
    ensures NormalHop(NormalHop(h)) == NormalHop(h)
  {
    hide TrimSpace, LowerTrim;
    TrimIdempotent(h.chainID);
    TrimIdempotent(h.rootNode);
    TrimIdempotent(h.fromNode);
    TrimIdempotent(h.toNode);
    TrimIdempotent(h.parentSessionBinding);
    TrimIdempotent(h.nonce);
    LowerTrimIdempotent(h.chainSHA256);
    if h.parentHopSHA256.NotHex? { LowerTrimIdempotent(h.parentHopSHA256.text); }
  }

  // ---------------------------------------------------------------------------------------------
  // The topology

  /** What both sides read from a context: the chain's identity and its nodes. */
  datatype Topology = Topology(chainID: string, chainSHA256: string, nodes: seq<string>)

  function TopologyOf(c: NodeContext): Topology {
    var n := NormalContext(c);
    Topology(n.chainID, n.chainSHA256, n.nodes)
  }

  function IndexOf(nodes: seq<string>, x: string): Option<nat> {
    if nodes == [] then None
    else if nodes[0] == x then Some(0)
    else
      var i := IndexOf(nodes[1..], x);
      if i.Some? then Some(i.value + 1) else None
  }

  lemma {:induction false} IndexOfSpec(nodes: seq<string>, x: string)
    ensures match IndexOf(nodes, x)
            case Some(i) => i < |nodes| && nodes[i] == x && forall j :: 0 <= j < i ==> nodes[j] != x
            case None => x !in nodes
  {
    if nodes != [] && nodes[0] != x {
      IndexOfSpec(nodes[1..], x);
      assert nodes == [nodes[0]] + nodes[1..];
    }
  }

  /** `CurrentIndex`: the position of the context's current node in its validated topology. */
  function CurrentIndex(c: NodeContext): Option<nat> {
    var n := NormalContext(c);
    if ContextInvalid(n).Some? then None else IndexOf(n.nodes, n.currentNode)
  }

  /** Normalising twice changes neither the nodes nor the current node, so the index is the one position of the topology
      at which the current node stands. */
  lemma CurrentIndexSpec(c: NodeContext)
    ensures CurrentIndex(NormalContext(c)).Some? ==>
              var i := CurrentIndex(NormalContext(c)).value;
              i < |TopologyOf(c).nodes| && TopologyOf(c).nodes[i] == NormalContext(c).currentNode
    ensures forall i: nat :: i < |TopologyOf(c).nodes| && TopologyOf(c).nodes[i] == NormalContext(c).currentNode ==>
              CurrentIndex(NormalContext(c))
              == if ContextInvalid(NormalContext(NormalContext(c))).None? then Some(i) else None
  {
    hide TrimSpace, LowerTrim, NormalizeCapabilities, ContextInvalid, DistinctTrimmed;
    var n := NormalContext(c);
    DistinctTrimmedSpec(c.nodes);
    CleanFixpoint(n.nodes);
    TrimIdempotent(c.currentNode);
    IndexOfSpec(n.nodes, n.currentNode);
  }

  // ---------------------------------------------------------------------------------------------
  // Append

  function Unix(t: int): int { t / SECOND }

  /** What one node contributes: its binding to the parent session, how long its record lives, its clock and nonce. */
  datatype Contribution = Contribution(binding: string, ttl: int, now: int, nonce: string)

  function TTL(w: Contribution): int { if w.ttl <= 0 then 300 * SECOND else w.ttl }

  /** The record that node `i` of a topology signs. */
  function NewHop(t: Topology, i: nat, w: Contribution, parent: DigestText<HopDigest>): Hop
    requires i + 1 < |t.nodes|
  {
    Hop(HOP_VERSION, t.chainID, t.chainSHA256, t.nodes[0], t.nodes[i], t.nodes[i + 1], i + 1, parent,
        if i == 0 then "" else TrimSpace(w.binding), w.nonce, Unix(w.now), Unix(w.now + TTL(w)))
  }

  /** A node's signer: the signature it makes for a hop, if it makes one. */
  type Signer = (string, Hop) -> Option<HopSignature>

  /** A verifier: whether a principal's signature over a hop is good. */
  type Verifier = (string, Hop, HopSignature) -> bool

  function Append(c: NodeContext, parent: Chain, w: Contribution, sign: Signer): Result<Chain, HopError> {
    var n, t := NormalContext(c), TopologyOf(c);
    var index := CurrentIndex(n);
    if index.None? then Err(InvalidContext)
    else
      var i := index.value;
      if i + 1 >= |t.nodes| then Err(NoNextNode)
      else if |parent.hops| != i || (i > 0 && Blank(w.binding)) then Err(InvalidChain)
      else
        var link := if i == 0 then Ok(Absent()) else SignedHopDigest(parent.hops[i - 1]);
        if link.Err? then Err(link.error)
        else
          var hop := NewHop(t, i, w, link.value).(fromNode := n.currentNode);
          if !ValidHop(NormalHop(hop)) then Err(InvalidChain)
          else
            var signature := sign(hop.fromNode, NormalHop(hop));
            if signature.None? || !signature.value.Signature? then Err(BadSignature)
            else if |parent.hops| + 1 > MAX_HOPS then Err(InvalidChain)
            else Ok(Chain(CHAIN_VERSION, parent.hops + [SignedHop(hop.fromNode, hop, signature.value)]))
  }

  // ---------------------------------------------------------------------------------------------
  // Verify

  /** How a recipient verifies: its clock and tolerances (in nanoseconds), its verifier, and whether it keeps a
      cache. */
  datatype Options = Options(now: int, maxTTL: int, clockSkew: int, verifies: Verifier, cached: bool)

  function MaxTTL(o: Options): int { if o.maxTTL <= 0 then 600 * SECOND else o.maxTTL }

  function Skew(o: Options): int { if o.clockSkew < 0 then 0 else o.clockSkew }

  /** The digest that record `i` must name. */
  function PreviousLink(hops: seq<SignedHop>, i: nat): DigestText<HopDigest>
    requires i <= |hops|
  {
    if i == 0 then Absent() else RecordDigest(hops[i - 1])
  }

  /** Record `i` does not stand where the topology puts it, or does not follow its predecessor. */
  predicate Misplaced(t: Topology, hops: seq<SignedHop>, i: nat)
    requires i < |hops| && i + 1 < |t.nodes|
  {
    var h := NormalHop(hops[i].hop);
    || hops[i].principal != t.nodes[i] || h.fromNode != t.nodes[i] || h.toNode != t.nodes[i + 1]
    || h.hopIndex != i + 1 || h.rootNode != t.nodes[0] || h.chainID != t.chainID || h.chainSHA256 != t.chainSHA256
    || h.parentHopSHA256 != PreviousLink(hops, i) || (h.parentSessionBinding == "") != (i == 0)
  }

  /** The record's validity window against the recipient's clock. */
  function WindowError(h: Hop, o: Options): Option<HopError> {
    if h.issuedAtUnix <= 0 || h.expiresAtUnix <= h.issuedAtUnix
       || Duration(h.expiresAtUnix - h.issuedAtUnix) > MaxTTL(o)
    then Some(InvalidChain)
    else if Unix(o.now + Skew(o)) < h.issuedAtUnix then Some(InvalidChain)
    else if Unix(o.now - Skew(o)) >= h.expiresAtUnix then Some(ExpiredHop)
    else None
  }

  /** What `Verify` objects to at record `i`, the cache apart. */
  function HopFault(t: Topology, hops: seq<SignedHop>, i: nat, o: Options): Option<HopError>
    requires i < |hops| && i + 1 < |t.nodes|
  {
    var h := NormalHop(hops[i].hop);
    if Misplaced(t, hops, i) then Some(WrongHop)
    else if WindowError(h, o).Some? then WindowError(h, o)
    else if !ValidHop(h) then Some(InvalidChain)
    else if !hops[i].signature.Signature? || !o.verifies(hops[i].principal, h, hops[i].signature)
    then Some(BadSignature)
    else None
  }

  function HopUse(s: SignedHop, o: Options): Use { Use(TrimSpace(s.hop.nonce), s.hop.expiresAtUnix, Unix(o.now)) }

  /** The loop of `Verify` from record `i` on: its verdict, and the cache it leaves even when it fails. */
  function VerifyFrom(t: Topology, hops: seq<SignedHop>, i: nat, o: Options,
                      c: CacheState): (r: (Option<HopError>, CacheState))
    requires i <= |hops| < |t.nodes|
    decreases |hops| - i
  {
    if i == |hops| then (None, c)
    else if HopFault(t, hops, i, o).Some? then (HopFault(t, hops, i, o), c)
    else if !o.cached then VerifyFrom(t, hops, i + 1, o, c)
    else if !Fresh(c.seen, HopUse(hops[i], o)) then (Some(ReplayedHop), Step(c, HopUse(hops[i], o)))
    else VerifyFrom(t, hops, i + 1, o, Step(c, HopUse(hops[i], o)))
  }

  /** `Verify`. */
  function Verify(c: NodeContext, chain: Chain, o: Options, cache: CacheState): (Option<HopError>, CacheState) {
    var n, t := NormalContext(c), TopologyOf(c);
    var index := CurrentIndex(n);
    CurrentIndexSpec(c);
    if index.None? then (Some(InvalidContext), cache)
    else if index.value == 0 then (Some(NoPreviousNode), cache)
    else if chain.version != CHAIN_VERSION || |chain.hops| != index.value || |chain.hops| > MAX_HOPS
    then (Some(InvalidChain), cache)
    else
      var r := VerifyFrom(t, chain.hops, 0, o, cache);
      if r.0.Some? then r
      else if chain.hops[|chain.hops| - 1].hop.toNode != n.currentNode then (Some(WrongHop), r.1)
      else r
  }

  /** `Verify` as the source runs it, record by record with the cache updated in place; `history` is what the cache
      accepted before and after. */
  method VerifyChain(c: NodeContext, chain: Chain, o: Options, cache: NonceCache, ghost before: seq<Use>)
    returns (r: Option<HopError>, ghost history: seq<Use>)
    modifies cache
    ensures (r, CacheState(cache.seen, history)) == Verify(c, chain, o, CacheState(old(cache.seen), before))
  {
    hide NormalContext, HopFault, NormalHop, CurrentIndex, TrimSpace;
    history := before;
    var index := CurrentIndex(NormalContext(c));
    var t := TopologyOf(c);
    CurrentIndexSpec(c);
    if index.None? { return Some(InvalidContext), history; }
    if index.value == 0 { return Some(NoPreviousNode), history; }
    if chain.version != CHAIN_VERSION || |chain.hops| != index.value || |chain.hops| > MAX_HOPS {
      return Some(InvalidChain), history;
    }
    var hops := chain.hops;
    for i := 0 to |hops|
      invariant VerifyFrom(t, hops, i, o, CacheState(cache.seen, history))
             == VerifyFrom(t, hops, 0, o, CacheState(old(cache.seen), before))
    {
      var fault := HopFault(t, hops, i, o);
      if fault.Some? { return fault, history; }
      if o.cached {
        var use := HopUse(hops[i], o);
        var stored := cache.CheckAndStore(use.nonce, use.expires, use.now);
        if !stored { return Some(ReplayedHop), history; }
        history := history + [use];
      }
    }
    if hops[|hops| - 1].hop.toNode != NormalContext(c).currentNode { return Some(WrongHop), history; }
    return None, history;
  }

  // ---------------------------------------------------------------------------------------------
  // The last digest fixes the whole chain

  /** No record of the chain has a fault. */
  ghost predicate Sound(t: Topology, hops: seq<SignedHop>, o: Options) {
    |hops| < |t.nodes| && forall i :: 0 <= i < |hops| ==> HopFault(t, hops, i, o) == None
  }

  lemma {:induction false} AcceptedIsSound(t: Topology, hops: seq<SignedHop>, i: nat, o: Options, c: CacheState)
    requires i <= |hops| < |t.nodes| && VerifyFrom(t, hops, i, o, c).0 == None
    ensures forall j :: i <= j < |hops| ==> HopFault(t, hops, j, o) == None
    decreases |hops| - i
  {
    hide HopFault;
    if i < |hops| {
      AcceptedIsSound(t, hops, i + 1, o, if o.cached then Step(c, HopUse(hops[i], o)) else c);
    }
  }

  /** Record `i` as an accepted one is: signed for the node of its position, sent to the next one, for this chain and
      linked to the record before it, with a parent session unless it is the first, and in its time. */
  ghost predicate Good(n: NodeContext, hops: seq<SignedHop>, i: nat, o: Options)
    requires i < |hops| && i + 1 < |n.nodes|
  {
    var h := hops[i].hop;
    && hops[i].principal == n.nodes[i] && hops[i].signature.Signature?
    && o.verifies(n.nodes[i], NormalHop(h), hops[i].signature)
    && TrimSpace(h.fromNode) == n.nodes[i] && TrimSpace(h.toNode) == n.nodes[i + 1]
    && TrimSpace(h.rootNode) == n.nodes[0] && h.hopIndex == i + 1
    && TrimSpace(h.chainID) == n.chainID && LowerTrim(h.chainSHA256) == n.chainSHA256
    && (h.version == "" || h.version == "weaverssh.hop.v1") && !Blank(h.nonce)
    && Canonical(h.parentHopSHA256)
       == (if i == 0 then NotHex("") else Hex(HopHash(NormalRecord(hops[i - 1])), "", ""))
    && (Blank(h.parentSessionBinding) <==> i == 0)
    && InTime(h, o)
  }

  /** Issued before the tolerated clock, not expired by it, and no longer lived than allowed. */
  ghost predicate InTime(h: Hop, o: Options) {
    var skew := if o.clockSkew > 0 then o.clockSkew else 0;
    && 0 < h.issuedAtUnix < h.expiresAtUnix
    && Duration(h.expiresAtUnix - h.issuedAtUnix) <= (if o.maxTTL > 0 then o.maxTTL else 600 * SECOND)
    && h.issuedAtUnix <= Unix(o.now + skew) && Unix(o.now - skew) < h.expiresAtUnix
  }

  lemma InTimeExactly(h: Hop, o: Options)
    ensures WindowError(NormalHop(h), o) == None <==> InTime(h, o)
  {
    hide TrimSpace, LowerTrim, Duration, Unix;
  }

  lemma InTimeOrdered(h: Hop, o: Options)
    requires InTime(h, o)
    ensures h.issuedAtUnix < h.expiresAtUnix
  {}

  /** The identity and nodes of a topology, as a normalised context carries them. */
  ghost predicate Carries(n: NodeContext, t: Topology) {
    n.nodes == t.nodes && n.chainID == t.chainID && n.chainSHA256 == t.chainSHA256
  }

  lemma HopFaultExactly(n: NodeContext, t: Topology, hops: seq<SignedHop>, i: nat, o: Options)
    requires i < |hops| && i + 1 < |t.nodes| && CleanTopology(t) && Carries(n, t)
    ensures HopFault(t, hops, i, o) == None <==> Good(n, hops, i, o)
  {
    hide TrimSpace, LowerTrim, WindowError, InTime, NormalRecord;
    InTimeExactly(hops[i].hop, o);
    var h := NormalHop(hops[i].hop);
    assert t.nodes[i] != "" && t.nodes[i + 1] != "" && t.nodes[0] != "";
    assert PreviousLink(hops, i) == if i == 0 then NotHex("") else Hex(HopHash(NormalRecord(hops[i - 1])), "", "");
    if Good(n, hops, i, o) {
      assert !Misplaced(t, hops, i);
      assert ValidHop(h) by { InTimeOrdered(hops[i].hop, o); }
    }
  }

  /** No record's nonce is live in the cache, nor stored and still live from an earlier record of the chain. */
  ghost predicate Unspent(seen: map<string, int>, hops: seq<SignedHop>, from: nat, o: Options) {
    forall k :: from <= k < |hops| ==>
      var nonce := TrimSpace(hops[k].hop.nonce);
      && (nonce in seen ==> seen[nonce] <= Unix(o.now))
      && forall m :: from <= m < k && TrimSpace(hops[m].hop.nonce) == nonce ==> hops[m].hop.expiresAtUnix <= Unix(o.now)
  }

  lemma UnspentStep(c: CacheState, hops: seq<SignedHop>, i: nat, o: Options)
    requires i < |hops|
    ensures Unspent(c.seen, hops, i, o)
       <==> Fresh(c.seen, HopUse(hops[i], o)) && Unspent(Step(c, HopUse(hops[i], o)).seen, hops, i + 1, o)
  {
    hide TrimSpace, Unix;
    var u := HopUse(hops[i], o);
    if Unspent(c.seen, hops, i, o) {
      assert Fresh(c.seen, u);
    }
    if Fresh(c.seen, u) && Unspent(Step(c, u).seen, hops, i + 1, o) {
      forall k | i <= k < |hops|
        ensures TrimSpace(hops[k].hop.nonce) in c.seen ==> c.seen[TrimSpace(hops[k].hop.nonce)] <= Unix(o.now) {}
    }
  }

  /** The loop accepts exactly when no record has a fault and no nonce is spent. */
  lemma {:induction false} LoopExactly(t: Topology, hops: seq<SignedHop>, i: nat, o: Options, c: CacheState)
    requires i <= |hops| < |t.nodes|
    ensures VerifyFrom(t, hops, i, o, c).0 == None
       <==> && (forall j :: i <= j < |hops| ==> HopFault(t, hops, j, o) == None)
            && (o.cached ==> Unspent(c.seen, hops, i, o))
    decreases |hops| - i
  {
    hide HopFault, Unspent, Fresh, Step;
    if i < |hops| {
      var d := if o.cached then Step(c, HopUse(hops[i], o)) else c;
      LoopExactly(t, hops, i + 1, o, d);
      UnspentStep(c, hops, i, o);
    } else {
      NothingSpent(c.seen, hops, i, o);
    }
  }

  lemma NothingSpent(seen: map<string, int>, hops: seq<SignedHop>, i: nat, o: Options)
    requires i == |hops|
    ensures Unspent(seen, hops, i, o)
  {}

  /** A chain is accepted exactly when it has a record for each node up to the holder of the context, all of them good,
      none spent, and the last one names the holder as it is written. */
  lemma AcceptedExactly(c: NodeContext, chain: Chain, o: Options, cache: CacheState)
    ensures Verify(c, chain, o, cache).0 == None
       <==> var n, k := NormalContext(c), |chain.hops|;
            && CurrentIndex(n) == Some(k) && k < |n.nodes| && chain.version == "weaverssh.hop-chain.v1" && 0 < k <= 16
            && (forall i :: 0 <= i < k ==> Good(n, chain.hops, i, o))
            && chain.hops[k - 1].hop.toNode == n.nodes[k]
            && (o.cached ==> Unspent(cache.seen, chain.hops, 0, o))
  {
    hide NormalContext, CurrentIndex, HopFault, Good, Unspent, TrimSpace;
    var n, t, k := NormalContext(c), TopologyOf(c), |chain.hops|;
    CurrentIndexSpec(c);
    if CurrentIndex(n) == Some(k) {
      HeldTopologyIsClean(c, t, k);
      LoopExactly(t, chain.hops, 0, o, cache);
      forall i | 0 <= i < k ensures HopFault(t, chain.hops, i, o) == None <==> Good(n, chain.hops, i, o) {
        HopFaultExactly(n, t, chain.hops, i, o);
      }
    }
  }

  /** A record without fault lives at most the limit exactly when its lifetime fits a duration. */
  lemma HopLifetimeExact(t: Topology, hops: seq<SignedHop>, i: nat, o: Options)
    requires i < |hops| && i + 1 < |t.nodes| && HopFault(t, hops, i, o) == None
    requires hops[i].hop.expiresAtUnix < 0x8000_0000_0000_0000 && MaxTTL(o) < 0x8000_0000_0000_0000
    ensures var seconds := hops[i].hop.expiresAtUnix - hops[i].hop.issuedAtUnix;
            seconds * SECOND <= MaxTTL(o) <==> seconds <= MAX_LIFETIME
  {
    hide TrimSpace, LowerTrim, Misplaced, ValidHop, Duration;
    DurationExact(hops[i].hop.expiresAtUnix - hops[i].hop.issuedAtUnix, MaxTTL(o));
  }

  lemma LinkFacts(t: Topology, hops: seq<SignedHop>, i: nat, o: Options)
    requires i < |hops| && i + 1 < |t.nodes| && HopFault(t, hops, i, o) == None
    ensures NormalHop(hops[i].hop).parentHopSHA256 == PreviousLink(hops, i)
    ensures hops[i].principal == t.nodes[i] && NormalHop(hops[i].hop).hopIndex == i + 1
  {
    hide TrimSpace, LowerTrim;
  }

  lemma {:induction false} LinksBackwards(t: Topology, u: Topology, a: seq<SignedHop>, b: seq<SignedHop>, oa: Options,
                                          ob: Options, n: nat)
    requires Sound(t, a, oa) && Sound(u, b, ob) && n <= |a| && n <= |b| && PreviousLink(a, n) == PreviousLink(b, n)
    ensures forall i :: 0 <= i < n ==> NormalRecord(a[i]) == NormalRecord(b[i])
  {
    hide HopFault, NormalHop, TrimSpace;
    if n > 0 {
      LinkFacts(t, a, n - 1, oa);
      LinkFacts(u, b, n - 1, ob);
      assert NormalRecord(a[n - 1]) == NormalRecord(b[n - 1]);
      LinksBackwards(t, u, a, b, oa, ob, n - 1);
    }
  }

  /** Two chains accepted under any contexts agree on their last record's digest exactly when they have the same length
      and all their normalised records are equal, whoever verified them and when. */
  lemma LastDigestFixesChain(c: NodeContext, d: NodeContext, a: Chain, b: Chain, oa: Options, ob: Options,
                             ca: CacheState, cb: CacheState)
    requires Verify(c, a, oa, ca).0 == None && Verify(d, b, ob, cb).0 == None
    ensures a.hops != [] && b.hops != []
    ensures RecordDigest(a.hops[|a.hops| - 1]) == RecordDigest(b.hops[|b.hops| - 1])
       <==> |a.hops| == |b.hops| && forall i :: 0 <= i < |a.hops| ==> NormalRecord(a.hops[i]) == NormalRecord(b.hops[i])
  {
    hide HopFault, NormalHop, TrimSpace, NormalContext, CurrentIndex;
    var t, u := TopologyOf(c), TopologyOf(d);
    CurrentIndexSpec(c);
    CurrentIndexSpec(d);
    AcceptedIsSound(t, a.hops, 0, oa, ca);
    AcceptedIsSound(u, b.hops, 0, ob, cb);
    var m, n := |a.hops| - 1, |b.hops| - 1;
    if RecordDigest(a.hops[m]) == RecordDigest(b.hops[n]) {
      LinkFacts(t, a.hops, m, oa);
      LinkFacts(u, b.hops, n, ob);
      assert NormalRecord(a.hops[m]) == NormalRecord(b.hops[n]);
      LinksBackwards(t, u, a.hops, b.hops, oa, ob, |a.hops|);
    }
  }

  // ---------------------------------------------------------------------------------------------
  // Honest chains

  /** The context puts its holder at position `j` of the topology. */
  ghost predicate Holds(c: NodeContext, t: Topology, j: nat) {
    TopologyOf(c) == t && CurrentIndex(NormalContext(c)) == Some(j)
  }

  /** A topology as validated contexts carry it. */
  ghost predicate CleanTopology(t: Topology) {
    && CleanList(t.nodes) && t.chainID != "" && TrimSpace(t.chainID) == t.chainID
    && |t.chainSHA256| == 64 && LowerTrim(t.chainSHA256) == t.chainSHA256
  }

  lemma HeldTopologyIsClean(c: NodeContext, t: Topology, j: nat)
    requires Holds(c, t, j)
    ensures CleanTopology(t) && j < |t.nodes| && NormalContext(c).currentNode == t.nodes[j]
  {
    hide NormalizeCapabilities, IndexOf, DistinctTrimmed, TrimSpace, LowerTrim;
    CurrentIndexSpec(c);
    DistinctTrimmedSpec(c.nodes);
    TrimIdempotent(c.chainID);
    LowerTrimIdempotent(c.chainSHA256);
    ValidContextFacts(NormalContext(NormalContext(c)));
  }

  lemma ValidContextFacts(c: NodeContext)
    requires ContextInvalid(c).None?
    ensures TrimSpace(c.chainID) != "" && |LowerTrim(c.chainSHA256)| == 64
  {
    hide NormalizeCapabilities, DistinctTrimmed, TrimSpace, LowerTrim;
  }

  lemma NewHopNormal(t: Topology, i: nat, w: Contribution, link: DigestText<HopDigest>)
    requires CleanTopology(t) && i + 1 < |t.nodes| && Canonical(link) == link
    ensures var h := NormalHop(NewHop(t, i, w, link));
            && h.fromNode == t.nodes[i] && h.toNode == t.nodes[i + 1] && h.rootNode == t.nodes[0] && h.hopIndex == i + 1
            && h.chainID == t.chainID && h.chainSHA256 == t.chainSHA256 && h.parentHopSHA256 == link
            && h.parentSessionBinding == (if i == 0 then "" else TrimSpace(w.binding)) && h.version == HOP_VERSION
            && h.nonce == TrimSpace(w.nonce) && h.issuedAtUnix == Unix(w.now) && h.expiresAtUnix == Unix(w.now + TTL(w))
  {
    hide TrimSpace, LowerTrim;
    TrimIdempotent(w.binding);
    TrimSpaceTrimmed("");
  }

  /** How long a record lives: as asked for, or five minutes. */
  ghost predicate Lives(w: Contribution, expires: int) {
    expires == Unix(w.now + if w.ttl > 0 then w.ttl else 300 * SECOND)
  }

  /** The record that the node at position `i` adds to `before`: from itself to the next node, for this chain, with its
      number, linked to the last record, and with the parent session unless it is the first. */
  ghost predicate Adds(n: NodeContext, before: seq<SignedHop>, i: nat, w: Contribution, h: Hop)
    requires i == |before| && i + 1 < |n.nodes|
  {
    && h.version == "weaverssh.hop.v1" && h.chainID == n.chainID && h.chainSHA256 == n.chainSHA256
    && h.rootNode == n.nodes[0] && h.fromNode == n.nodes[i] && h.toNode == n.nodes[i + 1] && h.hopIndex == i + 1
    && h.parentHopSHA256 == (if i == 0 then NotHex("") else Hex(HopHash(NormalRecord(before[i - 1])), "", ""))
    && h.parentSessionBinding == (if i == 0 then "" else TrimSpace(w.binding))
    && h.nonce == w.nonce && h.issuedAtUnix == Unix(w.now) && Lives(w, h.expiresAtUnix)
  }

  /** What the node at position `i` needs: a next node, all records up to its own, a parent session unless it is the
      first, a last record with a principal and a signature, a nonce, and a lifetime of at least a second. */
  ghost predicate MayAppend(n: NodeContext, before: seq<SignedHop>, i: nat, w: Contribution) {
    && i + 1 < |n.nodes| && |before| == i < 16 && !Blank(w.nonce)
    && (i > 0 ==> !Blank(w.binding) && !Blank(before[i - 1].principal) && before[i - 1].signature != NoSignature(""))
    && forall expires :: Lives(w, expires) ==> expires > Unix(w.now)
  }

  lemma NewHopAdds(n: NodeContext, t: Topology, before: seq<SignedHop>, w: Contribution)
    requires Carries(n, t) && CleanTopology(t) && |before| + 1 < |t.nodes|
    ensures var h := NewHop(t, |before|, w, PreviousLink(before, |before|));
            && Adds(n, before, |before|, w, h)
            && (ValidHop(NormalHop(h)) <==> !Blank(w.nonce) && h.expiresAtUnix > h.issuedAtUnix)
  {
    hide TrimSpace, LowerTrim, NormalRecord, Unix;
    var i := |before|;
    var link := PreviousLink(before, i);
    CanonicalLink(before, i);
    NewHopNormal(t, i, w, link);
    assert t.nodes[i] != "" && t.nodes[i + 1] != "" && t.nodes[0] != "";
  }

  lemma AddsOne(n: NodeContext, before: seq<SignedHop>, i: nat, w: Contribution, g: Hop, h: Hop)
    requires i == |before| && i + 1 < |n.nodes| && Adds(n, before, i, w, g) && Adds(n, before, i, w, h)
    ensures g == h
  {
    hide TrimSpace, NormalRecord, Unix;
  }

  /** A node appends exactly when it may and its signer signs the record; the chain is then the parent's with that
      record, from the node itself, at the end. */
  lemma AppendExactly(c: NodeContext, parent: Chain, w: Contribution, sign: Signer, i: nat)
    requires CurrentIndex(NormalContext(c)) == Some(i)
    ensures var n, r := NormalContext(c), Append(c, parent, w, sign);
            && (r.Ok? ==> MayAppend(n, parent.hops, i, w))
            && (MayAppend(n, parent.hops, i, w) ==> exists h :: Adds(n, parent.hops, i, w, h))
            && (MayAppend(n, parent.hops, i, w) ==>
                  forall h | Adds(n, parent.hops, i, w, h) ::
                    var signature := sign(n.nodes[i], NormalHop(h));
                    if signature.Some? && signature.value.Signature?
                    then r == Ok(Chain("weaverssh.hop-chain.v1",
                                       parent.hops + [SignedHop(n.nodes[i], h, signature.value)]))
                    else r == Err(BadSignature))
  {
    hide NormalContext, CurrentIndex, TrimSpace, NormalHop, NormalRecord, Unix, Adds, ValidHop;
    var n, t := NormalContext(c), TopologyOf(c);
    CurrentIndexSpec(c);
    HeldTopologyIsClean(c, t, i);
    if i + 1 < |t.nodes| && |parent.hops| == i {
      var h := NewHop(t, i, w, PreviousLink(parent.hops, i));
      NewHopAdds(n, t, parent.hops, w);
      AddsTimes(n, parent.hops, i, w, h);
      forall g | Adds(n, parent.hops, i, w, g) ensures g == h { AddsOne(n, parent.hops, i, w, g, h); }
      assert h.(fromNode := n.currentNode) == h;
    }
  }

  lemma AddsTimes(n: NodeContext, before: seq<SignedHop>, i: nat, w: Contribution, h: Hop)
    requires i == |before| && i + 1 < |n.nodes| && Adds(n, before, i, w, h)
    ensures h.fromNode == n.nodes[i] && h.issuedAtUnix == Unix(w.now) && Lives(w, h.expiresAtUnix)
  {
    hide TrimSpace, NormalRecord, Unix;
  }

  /** Contribution `i` is usable at the recipient's clock: it names a parent session after the first hop, has a nonce,
      and its record's whole-second window is open and no longer than the recipient allows. */
  ghost predicate Usable(w: Contribution, i: nat, o: Options) {
    && !Blank(w.nonce) && (i > 0 ==> !Blank(w.binding))
    && 0 < Unix(w.now) < Unix(w.now + TTL(w))
    && (Unix(w.now + TTL(w)) - Unix(w.now)) * SECOND <= MaxTTL(o) < 0x8000_0000_0000_0000
    && Unix(w.now) <= Unix(o.now + Skew(o)) && Unix(o.now - Skew(o)) < Unix(w.now + TTL(w))
  }

  lemma UsableWindow(w: Contribution, i: nat, o: Options, h: Hop)
    requires Usable(w, i, o) && h.issuedAtUnix == Unix(w.now) && h.expiresAtUnix == Unix(w.now + TTL(w))
    ensures WindowError(h, o) == None
  {
    hide Unix, Blank;
    var d := h.expiresAtUnix - h.issuedAtUnix;
    assert 0 < d < 0x8000_0000_0000_0000;
    assert Wrap64(d) == d && Wrap64(d * SECOND) == d * SECOND;
  }

  /** The signer signs every hop, and the recipient's verifier accepts what it signs. */
  ghost predicate Keys(sign: Signer, o: Options) {
    forall p, h :: sign(p, h).Some? && sign(p, h).value.Signature? && o.verifies(p, h, sign(p, h).value)
  }

  /** The chain after the first `k` nodes appended in turn, each from its own context. */
  function HonestChain(contexts: seq<NodeContext>, plan: seq<Contribution>, sign: Signer,
                       k: nat): Result<Chain, HopError>
    requires k <= |contexts| && k <= |plan|
  {
    if k == 0 then Ok(Chain(CHAIN_VERSION, []))
    else
      var parent := HonestChain(contexts, plan, sign, k - 1);
      if parent.Err? then parent else Append(contexts[k - 1], parent.value, plan[k - 1], sign)
  }

  /** The record node `j` adds to a chain. */
  function NewRecord(t: Topology, j: nat, parent: seq<SignedHop>, w: Contribution, sign: Signer): SignedHop
    requires j + 1 < |t.nodes| && j <= |parent|
    requires sign(t.nodes[j], NormalHop(NewHop(t, j, w, PreviousLink(parent, j)))).Some?
  {
    var hop := NewHop(t, j, w, PreviousLink(parent, j));
    SignedHop(t.nodes[j], hop, sign(t.nodes[j], NormalHop(hop)).value)
  }

  lemma CanonicalLink(hops: seq<SignedHop>, i: nat)
    requires i <= |hops|
    ensures Canonical(PreviousLink(hops, i)) == PreviousLink(hops, i)
  {
    hide LowerTrim;
    if i == 0 { BlankLink(); }
  }

  lemma NewHopValid(t: Topology, j: nat, w: Contribution, link: DigestText<HopDigest>, o: Options)
    requires CleanTopology(t) && j + 1 < |t.nodes| && Canonical(link) == link && Usable(w, j, o)
    requires link == Absent() || link.Hex?
    ensures ValidHop(NormalHop(NewHop(t, j, w, link)))
  {
    hide TrimSpace, LowerTrim, Unix, NormalHop, NewHop;
    NewHopNormal(t, j, w, link);
  }

  /** One honest append to a sound chain succeeds. */
  lemma AppendSucceeds(c: NodeContext, t: Topology, j: nat, parent: Chain, w: Contribution, sign: Signer, o: Options)
    requires Holds(c, t, j) && j + 1 < |t.nodes| && j < MAX_HOPS && |parent.hops| == j && Sound(t, parent.hops, o)
    requires Usable(w, j, o) && Keys(sign, o)
    ensures Append(c, parent, w, sign) ==
              Ok(Chain(CHAIN_VERSION, parent.hops + [NewRecord(t, j, parent.hops, w, sign)]))
  {
    hide NormalContext, CurrentIndex, TrimSpace, LowerTrim, HopFault, Unix, NormalHop, ValidHop, RecordDigest;
    HeldTopologyIsClean(c, t, j);
    if j > 0 { PredecessorHasDigest(t, parent.hops, j - 1, o); }
    var link := PreviousLink(parent.hops, j);
    CanonicalLink(parent.hops, j);
    assert link == Absent() || link.Hex? by { LinkShape(parent.hops, j); }
    NewHopValid(t, j, w, link, o);
    var hop := NewHop(t, j, w, link);
    assert hop.(fromNode := t.nodes[j]) == hop;
  }

  lemma LinkShape(hops: seq<SignedHop>, i: nat)
    requires i <= |hops|
    ensures PreviousLink(hops, i) == Absent() || PreviousLink(hops, i).Hex?
  {
    hide NormalRecord;
  }

  /** The recipient finds no fault in the new record, nor in the ones before it. */
  lemma NewRecordSound(t: Topology, j: nat, parent: seq<SignedHop>, w: Contribution, sign: Signer, o: Options)
    requires CleanTopology(t) && j + 1 < |t.nodes| && |parent| == j && Sound(t, parent, o)
    requires Usable(w, j, o) && Keys(sign, o)
    ensures Sound(t, parent + [NewRecord(t, j, parent, w, sign)], o)
  {
    hide TrimSpace, LowerTrim, HopFault, Unix, NormalHop, ValidHop, RecordDigest, WindowError, NewHop, Usable;
    var record := NewRecord(t, j, parent, w, sign);
    var hops := parent + [record];
    var link := PreviousLink(parent, j);
    assert link == PreviousLink(hops, j);
    CanonicalLink(parent, j);
    LinkShape(parent, j);
    NewHopNormal(t, j, w, link);
    NewHopValid(t, j, w, link, o);
    UsableWindow(w, j, o, NormalHop(record.hop));
    UsableBinding(w, j, o);
    NewRecordFaultless(t, hops, j, o);
    forall i | 0 <= i < |hops| ensures HopFault(t, hops, i, o) == None {
      if i < j { PrefixFault(t, parent, hops, i, o); }
    }
  }

  lemma UsableBinding(w: Contribution, i: nat, o: Options)
    requires Usable(w, i, o)
    ensures i > 0 ==> TrimSpace(w.binding) != ""
  {
    hide TrimSpace;
  }

  lemma AppendKeepsSound(c: NodeContext, t: Topology, j: nat, parent: Chain, w: Contribution, sign: Signer, o: Options)
    requires Holds(c, t, j) && j + 1 < |t.nodes| && j < MAX_HOPS && |parent.hops| == j && Sound(t, parent.hops, o)
    requires Usable(w, j, o) && Keys(sign, o)
    ensures var r := Append(c, parent, w, sign);
            && r.Ok? && r.value.version == CHAIN_VERSION && |r.value.hops| == j + 1 && Sound(t, r.value.hops, o)
            && r.value.hops[..j] == parent.hops && HopUse(r.value.hops[j], o).nonce == TrimSpace(w.nonce)
            && r.value.hops[j].hop.toNode == t.nodes[j + 1]
  {
    hide Append, TrimSpace, LowerTrim, HopFault, Unix, NormalHop, RecordDigest, Usable, Holds;
    HeldTopologyIsClean(c, t, j);
    AppendSucceeds(c, t, j, parent, w, sign, o);
    NewRecordSound(t, j, parent.hops, w, sign, o);
  }

  lemma BlankLink()
    ensures Canonical(Absent<HopDigest>()) == Absent()
  {
    TrimSpaceTrimmed("");
  }

  lemma PredecessorHasDigest(t: Topology, hops: seq<SignedHop>, i: nat, o: Options)
    requires i < |hops| < |t.nodes| && HopFault(t, hops, i, o) == None && CleanTopology(t)
    ensures SignedHopDigest(hops[i]) == Ok(RecordDigest(hops[i]))
  {
    hide LowerTrim;
    LinkFacts(t, hops, i, o);
  }

  lemma NewRecordFaultless(t: Topology, hops: seq<SignedHop>, i: nat, o: Options)
    requires i < |hops| < |t.nodes| && !Misplaced(t, hops, i) && WindowError(NormalHop(hops[i].hop), o) == None
    requires ValidHop(NormalHop(hops[i].hop)) && hops[i].signature.Signature?
    requires o.verifies(hops[i].principal, NormalHop(hops[i].hop), hops[i].signature)
    ensures HopFault(t, hops, i, o) == None
  {
    hide NormalHop, Misplaced, WindowError, ValidHop;
  }

  lemma PrefixFault(t: Topology, a: seq<SignedHop>, b: seq<SignedHop>, i: nat, o: Options)
    requires i < |a| < |t.nodes| && |a| <= |b| && b[..|a|] == a
    ensures HopFault(t, b, i, o) == HopFault(t, a, i, o)
  {
    hide NormalHop, WindowError, ValidHop;
    assert b[i] == a[i] && (i > 0 ==> b[i - 1] == a[i - 1]);
  }

  lemma {:induction false} HonestIsSound(contexts: seq<NodeContext>, t: Topology, plan: seq<Contribution>,
                                         sign: Signer, o: Options, k: nat)
    requires k < |t.nodes| && k <= MAX_HOPS && k <= |contexts| && k <= |plan| && Keys(sign, o)
    requires forall j :: 0 <= j < k ==> Holds(contexts[j], t, j) && Usable(plan[j], j, o)
    ensures var r := HonestChain(contexts, plan, sign, k);
            && r.Ok? && r.value.version == CHAIN_VERSION && |r.value.hops| == k && Sound(t, r.value.hops, o)
            && (forall i :: 0 <= i < k ==> HopUse(r.value.hops[i], o).nonce == TrimSpace(plan[i].nonce))
            && (k > 0 ==> r.value.hops[k - 1].hop.toNode == t.nodes[k])
  {
    hide Append, Holds, Usable, HopFault, TrimSpace, HopUse, Keys;
    if k > 0 {
      HonestIsSound(contexts, t, plan, sign, o, k - 1);
      var parent := HonestChain(contexts, plan, sign, k - 1).value;
      AppendKeepsSound(contexts[k - 1], t, k - 1, parent, plan[k - 1], sign, o);
      var hops := HonestChain(contexts, plan, sign, k).value.hops;
      forall i | 0 <= i < k ensures HopUse(hops[i], o).nonce == TrimSpace(plan[i].nonce) {
        if i < k - 1 { assert hops[i] == hops[..k - 1][i] == parent.hops[i]; }
      }
    }
  }

  /** The cache does not hold any of the chain's nonces, and no two records share one. */
  ghost predicate NoncesNew(hops: seq<SignedHop>, i: nat, o: Options, seen: map<string, int>) {
    && (forall j :: i <= j < |hops| ==> Fresh(seen, HopUse(hops[j], o)))
    && (forall j, k :: i <= j < k < |hops| ==> HopUse(hops[j], o).nonce != HopUse(hops[k], o).nonce)
  }

  lemma {:induction false} SoundIsAccepted(t: Topology, hops: seq<SignedHop>, i: nat, o: Options, c: CacheState)
    requires Sound(t, hops, o) && i <= |hops| && (o.cached ==> NoncesNew(hops, i, o, c.seen))
    ensures VerifyFrom(t, hops, i, o, c).0 == None
    decreases |hops| - i
  {
    hide HopFault, TrimSpace;
    if i < |hops| {
      SoundIsAccepted(t, hops, i + 1, o, if o.cached then Step(c, HopUse(hops[i], o)) else c);
    }
  }

  /** When every node before `k` appends in turn and the records' windows are open at node `k`'s clock, each append
      succeeds and node `k` accepts the chain; a cache only has to be free of the fresh, distinct nonces. */
  lemma HonestChainVerifies(contexts: seq<NodeContext>, t: Topology, plan: seq<Contribution>, sign: Signer, o: Options,
                            k: nat, cache: CacheState)
    requires 0 < k < |t.nodes| && k <= MAX_HOPS && k < |contexts| && k <= |plan| && Keys(sign, o)
    requires forall j :: 0 <= j <= k ==> Holds(contexts[j], t, j)
    requires forall j :: 0 <= j < k ==> Usable(plan[j], j, o)
    requires o.cached ==> forall j :: 0 <= j < k ==> TrimSpace(plan[j].nonce) !in cache.seen
    requires o.cached ==> forall i, j :: 0 <= i < j < k ==> TrimSpace(plan[i].nonce) != TrimSpace(plan[j].nonce)
    ensures HonestChain(contexts, plan, sign, k).Ok?
    ensures Verify(contexts[k], HonestChain(contexts, plan, sign, k).value, o, cache).0 == None
  {
    hide Usable, HopFault, TrimSpace, Keys, NormalContext, CurrentIndex, HopUse, Append;
    HonestIsSound(contexts, t, plan, sign, o, k);
    HeldTopologyIsClean(contexts[k], t, k);
    var hops := HonestChain(contexts, plan, sign, k).value.hops;
    if o.cached {
      forall j | 0 <= j < k ensures Fresh(cache.seen, HopUse(hops[j], o)) {
        assert HopUse(hops[j], o).nonce == TrimSpace(plan[j].nonce);
      }
      assert NoncesNew(hops, 0, o, cache.seen);
    }
    SoundIsAccepted(t, hops, 0, o, cache);
  }

  // ---------------------------------------------------------------------------------------------
  // Replays

  datatype HopAttempt = HopAttempt(context: NodeContext, chain: Chain, options: Options)

  /** The cache and the attempts that succeeded, after a run of verifications on one cache. */
  datatype HopState = HopState(cache: CacheState, accepted: seq<HopAttempt>)

  function HopRun(run: seq<HopAttempt>): HopState {
    if run == [] then HopState(EMPTY, [])
    else
      var s, a := HopRun(run[..|run| - 1]), run[|run| - 1];
      var r := Verify(a.context, a.chain, a.options, s.cache);
      HopState(r.1, if r.0.None? then s.accepted + [a] else s.accepted)
  }

  /** Every attempt uses the cache, and the clock never goes back. */
  ghost predicate Clocked(run: seq<HopAttempt>) {
    && (forall i :: 0 <= i < |run| ==> run[i].options.cached)
    && (forall i, j :: 0 <= i < j < |run| ==> Unix(run[i].options.now) <= Unix(run[j].options.now))
  }

  ghost predicate Stored(c: CacheState, s: SignedHop, o: Options) {
    exists u :: u in c.accepted && u.nonce == HopUse(s, o).nonce && u.expires == HopUse(s, o).expires
  }

  /** The verification loop only adds to the cache's history, keeps it tracking, and stores every record it passes. */
  lemma {:induction false} VerifyFromStores(t: Topology, hops: seq<SignedHop>, i: nat, o: Options, c: CacheState,
                                            now: int)
    requires i <= |hops| < |t.nodes| && o.cached && Tracks(c, now) && now <= Unix(o.now)
    ensures var r := VerifyFrom(t, hops, i, o, c);
            && Tracks(r.1, Unix(o.now)) && c.accepted <= r.1.accepted
            && (r.0.None? ==> forall j :: i <= j < |hops| ==> Stored(r.1, hops[j], o))
    decreases |hops| - i
  {
    hide HopFault, Tracks, HopUse, Step, Fresh, Stored;
    TracksLater(c, now, Unix(o.now));
    if i < |hops| && HopFault(t, hops, i, o).None? {
      var u := HopUse(hops[i], o);
      UseClocked(hops[i], o);
      StepTracks(c, u, now);
      StepGrows(c, u);
      if Fresh(c.seen, u) {
        var d := Step(c, u);
        VerifyFromStores(t, hops, i + 1, o, d, Unix(o.now));
        StoredByPrefix(c, d, VerifyFrom(t, hops, i + 1, o, d).1, hops[i], o);
      }
    }
  }

  lemma UseClocked(s: SignedHop, o: Options)
    ensures HopUse(s, o).now == Unix(o.now)
  {}

  lemma StepGrows(c: CacheState, u: Use)
    ensures Step(c, u).accepted == if Fresh(c.seen, u) then c.accepted + [u] else c.accepted
  {}

  lemma StoredByPrefix(c: CacheState, d: CacheState, r: CacheState, s: SignedHop, o: Options)
    requires d.accepted == c.accepted + [HopUse(s, o)] && d.accepted <= r.accepted
    ensures Stored(r, s, o)
  {
    hide HopUse;
    assert r.accepted[|c.accepted|] == HopUse(s, o);
  }

  lemma TracksLater(c: CacheState, now: int, later: int)
    requires Tracks(c, now) && now <= later
    ensures Tracks(c, later)
  {}

  lemma VerifyStores(a: HopAttempt, c: CacheState, now: int)
    requires a.options.cached && Tracks(c, now) && now <= Unix(a.options.now)
    ensures var r := Verify(a.context, a.chain, a.options, c);
            && Tracks(r.1, Unix(a.options.now)) && c.accepted <= r.1.accepted
            && (r.0.None? ==> forall j :: 0 <= j < |a.chain.hops| ==> Stored(r.1, a.chain.hops[j], a.options))
  {
    hide Tracks, NormalContext, CurrentIndex, VerifyFrom;
    CurrentIndexSpec(a.context);
    TracksLater(c, now, Unix(a.options.now));
    var t := TopologyOf(a.context);
    if |a.chain.hops| < |t.nodes| { VerifyFromStores(t, a.chain.hops, 0, a.options, c, now); }
  }

  lemma StoredGrows(c: CacheState, d: CacheState, s: SignedHop, o: Options)
    requires Stored(c, s, o) && c.accepted <= d.accepted
    ensures Stored(d, s, o)
  {
    var u :| u in c.accepted && u.nonce == HopUse(s, o).nonce && u.expires == HopUse(s, o).expires;
    assert u in d.accepted;
  }

  function LastClock(run: seq<HopAttempt>, start: int): int {
    if run == [] then start else Unix(run[|run| - 1].options.now)
  }

  lemma {:induction false} RunStores(run: seq<HopAttempt>, start: int)
    requires Clocked(run) && (run != [] ==> start <= Unix(run[0].options.now))
    ensures var s := HopRun(run);
            && Tracks(s.cache, LastClock(run, start))
            && forall i, j :: 0 <= i < |s.accepted| && 0 <= j < |s.accepted[i].chain.hops| ==>
                 Stored(s.cache, s.accepted[i].chain.hops[j], s.accepted[i].options)
  {
    hide Tracks, Verify, Stored, Unix, Skew;
    if run == [] {
      EmptyTracks(start);
    } else {
      var n := |run| - 1;
      RunStores(run[..n], start);
      var s, a := HopRun(run[..n]), run[n];
      assert LastClock(run[..n], start) <= Unix(a.options.now);
      VerifyStores(a, s.cache, LastClock(run[..n], start));
      var s' := HopRun(run);
      forall i, j | 0 <= i < |s'.accepted| && 0 <= j < |s'.accepted[i].chain.hops|
        ensures Stored(s'.cache, s'.accepted[i].chain.hops[j], s'.accepted[i].options)
      {
        if i < |s.accepted| { StoredGrows(s.cache, s'.cache, s.accepted[i].chain.hops[j], s.accepted[i].options); }
      }
    }
  }

  lemma EmptyTracks(now: int)
    ensures Tracks(EMPTY, now)
  {}

  /** A record whose use is already in the cache's history passes only once it has expired. */
  lemma {:induction false} PassesOnceExpired(t: Topology, hops: seq<SignedHop>, i: nat, o: Options, c: CacheState,
                                             now: int, k: nat, earlier: SignedHop, oe: Options)
    requires i <= k < |hops| < |t.nodes| && o.cached && Tracks(c, now) && now <= Unix(o.now)
    requires Stored(c, earlier, oe) && NormalRecord(earlier) == NormalRecord(hops[k])
    requires VerifyFrom(t, hops, i, o, c).0 == None
    ensures hops[k].hop.expiresAtUnix <= Unix(o.now)
    decreases |hops| - i
  {
    hide HopFault, Tracks, Step, Fresh, Stored, TrimSpace;
    var u := HopUse(hops[i], o);
    if i == k {
      StoredUse(c, earlier, oe, u, o, hops[k]);
      TracksRefuses(c, now, u);
    } else {
      StepTracks(c, u, now);
      StepGrows(c, u);
      StoredGrows(c, Step(c, u), earlier, oe);
      PassesOnceExpired(t, hops, i + 1, o, Step(c, u), Unix(o.now), k, earlier, oe);
    }
  }

  lemma StoredUse(c: CacheState, earlier: SignedHop, oe: Options, u: Use, o: Options, s: SignedHop)
    requires Stored(c, earlier, oe) && NormalRecord(earlier) == NormalRecord(s) && u == HopUse(s, o)
    ensures exists a :: a in c.accepted && a.nonce == u.nonce && a.expires == u.expires
  {
    hide TrimSpace, LowerTrim;
  }

  /** A verification that accepts a record that was accepted before does so after its expiry, within the tolerance. */
  lemma AcceptsOnlyTolerated(a: HopAttempt, c: CacheState, now: int, k: nat, earlier: SignedHop, oe: Options)
    requires a.options.cached && Tracks(c, now) && now <= Unix(a.options.now) && k < |a.chain.hops|
    requires Stored(c, earlier, oe) && NormalRecord(earlier) == NormalRecord(a.chain.hops[k])
    requires Verify(a.context, a.chain, a.options, c).0 == None
    ensures Tolerated(a.chain.hops[k], a.options)
  {
    hide NormalContext, CurrentIndex, TrimSpace, LowerTrim, ValidHop, Misplaced, VerifyFrom, Tracks, Stored, Duration;
    CurrentIndexSpec(a.context);
    var t := TopologyOf(a.context);
    AcceptedIsSound(t, a.chain.hops, 0, a.options, c);
    assert HopFault(t, a.chain.hops, k, a.options) == None;
    PassesOnceExpired(t, a.chain.hops, 0, a.options, c, now, k, earlier, oe);
  }

  /** The record has expired to the second but is still tolerated. */
  ghost predicate Tolerated(s: SignedHop, o: Options) {
    Unix(o.now - Skew(o)) < s.hop.expiresAtUnix <= Unix(o.now)
  }

  /** Over every run on one shared cache under a clock that never goes back, a record that was accepted is
      accepted again, at the same place of any chain or another, only in the interval in which it has expired
      and is tolerated. */
  lemma {:induction false} AcceptedAgainOnlyTolerated(run: seq<HopAttempt>, i: nat, j: nat, m: nat, k: nat)
    requires Clocked(run) && i < j < |HopRun(run).accepted|
    requires m < |HopRun(run).accepted[i].chain.hops| && k < |HopRun(run).accepted[j].chain.hops|
    requires NormalRecord(HopRun(run).accepted[i].chain.hops[m]) == NormalRecord(HopRun(run).accepted[j].chain.hops[k])
    ensures Tolerated(HopRun(run).accepted[j].chain.hops[k], HopRun(run).accepted[j].options)
  {
    hide Tracks, Verify, Stored, Unix, Skew, NormalRecord, Tolerated;
    if run != [] {
      var n := |run| - 1;
      var s, a := HopRun(run[..n]), run[n];
      if j < |s.accepted| {
        AcceptedAgainOnlyTolerated(run[..n], i, j, m, k);
      } else {
        var start := if n == 0 then Unix(a.options.now) else Unix(run[0].options.now);
        RunStores(run[..n], start);
        var was := s.accepted[i];
        AcceptsOnlyTolerated(a, s.cache, LastClock(run[..n], start), k, was.chain.hops[m], was.options);
      }
    }
  }

  /** Where no skew is allowed that interval is empty: no record, let alone a chain, is accepted twice. */
  lemma NoChainAcceptedTwice(run: seq<HopAttempt>, i: nat, j: nat, m: nat, k: nat)
    requires Clocked(run) && i < j < |HopRun(run).accepted| && Skew(HopRun(run).accepted[j].options) == 0
    requires m < |HopRun(run).accepted[i].chain.hops| && k < |HopRun(run).accepted[j].chain.hops|
    ensures NormalRecord(HopRun(run).accepted[i].chain.hops[m]) != NormalRecord(HopRun(run).accepted[j].chain.hops[k])
  {
    hide HopRun, NormalRecord;
    if NormalRecord(HopRun(run).accepted[i].chain.hops[m]) == NormalRecord(HopRun(run).accepted[j].chain.hops[k]) {
      AcceptedAgainOnlyTolerated(run, i, j, m, k);
    }
  }

  /** Nothing in the cache outlives second `now`. */
  ghost predicate AllDead(seen: map<string, int>, now: int) { forall n :: n in seen ==> seen[n] <= now }

  ghost predicate AllExpired(hops: seq<SignedHop>, now: int) {
    forall i :: 0 <= i < |hops| ==> hops[i].hop.expiresAtUnix <= now
  }

  lemma {:induction false} VerifyFromLeavesDead(t: Topology, hops: seq<SignedHop>, i: nat, o: Options, c: CacheState,
                                                now: int)
    requires i <= |hops| < |t.nodes| && AllDead(c.seen, now) && AllExpired(hops, now)
    ensures AllDead(VerifyFrom(t, hops, i, o, c).1.seen, now)
    decreases |hops| - i
  {
    hide HopFault, TrimSpace;
    if i < |hops| {
      var d := Step(c, HopUse(hops[i], o));
      assert AllDead(d.seen, now);
      VerifyFromLeavesDead(t, hops, i + 1, o, if o.cached then d else c, now);
    }
  }

  lemma {:induction false} DeadCacheAccepts(t: Topology, hops: seq<SignedHop>, i: nat, o: Options, c: CacheState)
    requires Sound(t, hops, o) && i <= |hops| && AllDead(c.seen, Unix(o.now)) && AllExpired(hops, Unix(o.now))
    ensures VerifyFrom(t, hops, i, o, c).0 == None
    decreases |hops| - i
  {
    hide HopFault, TrimSpace;
    if i < |hops| {
      var d := Step(c, HopUse(hops[i], o));
      assert AllDead(d.seen, Unix(o.now));
      DeadCacheAccepts(t, hops, i + 1, o, if o.cached then d else c);
    }
  }

  /** The same chain a second time. */
  function Again(a: HopAttempt, later: int): HopAttempt { a.(options := a.options.(now := later)) }

  /** An accepted chain is accepted again by the same cache at a later time exactly when by then all its records have
      expired to the second but are still tolerated. */
  lemma AcceptedAgainExactly(a: HopAttempt, later: int)
    requires Verify(a.context, a.chain, a.options, EMPTY).0 == None && a.options.cached && a.options.now <= later
    ensures HopRun([a, Again(a, later)]).accepted == [a, Again(a, later)]
       <==> forall i :: 0 <= i < |a.chain.hops| ==> Tolerated(a.chain.hops[i], a.options.(now := later))
  {
    hide Verify, Unix, Skew, NormalRecord, Tolerated;
    var run := [a, Again(a, later)];
    if forall i :: 0 <= i < |a.chain.hops| ==> Tolerated(a.chain.hops[i], a.options.(now := later)) {
      ToleratedChainAcceptedAgain(a, later);
    }
    if HopRun(run).accepted == run {
      UnixMonotone(a.options.now, later);
      forall i | 0 <= i < |a.chain.hops| ensures Tolerated(a.chain.hops[i], a.options.(now := later)) {
        AcceptedAgainOnlyTolerated(run, 0, 1, i, i);
      }
    }
  }

  lemma UnixMonotone(a: int, b: int)
    requires a <= b
    ensures Unix(a) <= Unix(b)
  {}

  lemma ToleratedChainAcceptedAgain(a: HopAttempt, later: int)
    requires Verify(a.context, a.chain, a.options, EMPTY).0 == None && a.options.now <= later
    requires forall i :: 0 <= i < |a.chain.hops| ==> Tolerated(a.chain.hops[i], a.options.(now := later))
    ensures HopRun([a, Again(a, later)]).accepted == [a, Again(a, later)]
  {
    hide NormalContext, CurrentIndex, TrimSpace, LowerTrim, HopFault, Unix, Skew;
    var o := a.options.(now := later);
    var t, hops := TopologyOf(a.context), a.chain.hops;
    CurrentIndexSpec(a.context);
    AcceptedIsSound(t, hops, 0, a.options, EMPTY);
    SkewOnly(a.options, later);
    forall i | 0 <= i < |hops| ensures HopFault(t, hops, i, o) == None { LaterFault(t, hops, i, a.options, later); }
    var r := Verify(a.context, a.chain, a.options, EMPTY);
    VerifyFromLeavesDead(t, hops, 0, a.options, EMPTY, Unix(later));
    DeadCacheAccepts(t, hops, 0, o, r.1);
    TwoAttempts(a, Again(a, later));
  }

  lemma SkewOnly(o: Options, later: int)
    ensures Skew(o.(now := later)) == Skew(o)
  {}

  lemma TwoAttempts(a: HopAttempt, b: HopAttempt)
    requires Verify(a.context, a.chain, a.options, EMPTY).0 == None
    requires Verify(b.context, b.chain, b.options, Verify(a.context, a.chain, a.options, EMPTY).1).0 == None
    ensures HopRun([a, b]).accepted == [a, b]
  {
    hide Verify;
    assert HopRun([a]) == HopState(Verify(a.context, a.chain, a.options, EMPTY).1, [a]) by { assert [a][..0] == []; }
    assert [a, b][..1] == [a];
  }

  lemma LaterFault(t: Topology, hops: seq<SignedHop>, i: nat, o: Options, later: int)
    requires i < |hops| < |t.nodes| && HopFault(t, hops, i, o) == None && o.now <= later
    requires Unix(later - Skew(o)) < hops[i].hop.expiresAtUnix
    ensures HopFault(t, hops, i, o.(now := later)) == None
  {
    hide TrimSpace, LowerTrim, Misplaced, ValidHop, Duration;
  }

  /** The records' expiries lie less than the tolerated skew apart. */
  ghost predicate SpreadBelowSkew(hops: seq<SignedHop>, o: Options) {
    forall i, j :: 0 <= i < |hops| && 0 <= j < |hops| ==>
                     (hops[i].hop.expiresAtUnix - hops[j].hop.expiresAtUnix) * SECOND < Skew(o)
  }

  /** An accepted chain can be accepted a second time exactly when there is no cache or its records' expiries lie less
      than the skew apart. */
  lemma ReplayExactly(a: HopAttempt)
    requires Verify(a.context, a.chain, a.options, EMPTY).0 == None
    ensures (exists later :: a.options.now <= later && HopRun([a, Again(a, later)]).accepted == [a, Again(a, later)])
       <==> !a.options.cached || SpreadBelowSkew(a.chain.hops, a.options)
  {
    hide Verify, HopRun;
    if !a.options.cached {
      UncachedReplays(a);
      return;
    }
    if SpreadBelowSkew(a.chain.hops, a.options) { SpreadAllowsReplay(a); }
    forall later | a.options.now <= later && HopRun([a, Again(a, later)]).accepted == [a, Again(a, later)]
      ensures SpreadBelowSkew(a.chain.hops, a.options)
    {
      AcceptedAgainExactly(a, later);
      ToleratedSpread(a.chain.hops, a.options, later);
    }
  }

  lemma UncachedReplays(a: HopAttempt)
    requires Verify(a.context, a.chain, a.options, EMPTY).0 == None && !a.options.cached
    ensures HopRun([a, Again(a, a.options.now)]).accepted == [a, Again(a, a.options.now)]
  {
    hide NormalContext, CurrentIndex, VerifyFrom, HopRun;
    CurrentIndexSpec(a.context);
    UncachedKeeps(TopologyOf(a.context), a.chain.hops, 0, a.options, EMPTY);
    assert Again(a, a.options.now) == a;
    TwoAttempts(a, a);
  }

  lemma {:induction false} UncachedKeeps(t: Topology, hops: seq<SignedHop>, i: nat, o: Options, c: CacheState)
    requires i <= |hops| < |t.nodes| && !o.cached
    ensures VerifyFrom(t, hops, i, o, c).1 == c
    decreases |hops| - i
  {
    hide HopFault;
    if i < |hops| { UncachedKeeps(t, hops, i + 1, o, c); }
  }

  lemma ToleratedSpread(hops: seq<SignedHop>, o: Options, later: int)
    requires forall i :: 0 <= i < |hops| ==> Tolerated(hops[i], o.(now := later))
    ensures SpreadBelowSkew(hops, o)
  {}

  /** The latest expiry among the records. */
  function Latest(hops: seq<SignedHop>): int
    requires hops != []
  {
    var n := |hops| - 1;
    if n == 0 then hops[0].hop.expiresAtUnix
    else if Latest(hops[..n]) < hops[n].hop.expiresAtUnix then hops[n].hop.expiresAtUnix
    else Latest(hops[..n])
  }

  lemma {:induction false} LatestIs(hops: seq<SignedHop>)
    requires hops != []
    ensures forall i :: 0 <= i < |hops| ==> hops[i].hop.expiresAtUnix <= Latest(hops)
    ensures exists i :: 0 <= i < |hops| && hops[i].hop.expiresAtUnix == Latest(hops)
  {
    var n := |hops| - 1;
    if n > 0 {
      LatestIs(hops[..n]);
      var i :| 0 <= i < n && hops[..n][i].hop.expiresAtUnix == Latest(hops[..n]);
      assert hops[i].hop.expiresAtUnix == Latest(hops[..n]);
      forall k | 0 <= k < n ensures hops[k].hop.expiresAtUnix <= Latest(hops) { assert hops[..n][k] == hops[k]; }
      assert Latest(hops) == hops[i].hop.expiresAtUnix || Latest(hops) == hops[n].hop.expiresAtUnix;
    } else {
      assert hops[0].hop.expiresAtUnix == Latest(hops);
    }
  }

  lemma SpreadAllowsReplay(a: HopAttempt)
    requires Verify(a.context, a.chain, a.options, EMPTY).0 == None && SpreadBelowSkew(a.chain.hops, a.options)
    ensures exists later :: a.options.now <= later && HopRun([a, Again(a, later)]).accepted == [a, Again(a, later)]
  {
    hide NormalContext, CurrentIndex, TrimSpace, LowerTrim, Misplaced, ValidHop, HopRun, Duration, Latest, VerifyFrom;
    CurrentIndexSpec(a.context);
    var hops, o := a.chain.hops, a.options;
    LatestIs(hops);
    var end := Latest(hops) * SECOND;
    var later := if o.now <= end then end else o.now;
    AcceptedIsSound(TopologyOf(a.context), hops, 0, o, EMPTY);
    forall i | 0 <= i < |hops| ensures Tolerated(hops[i], o.(now := later)) {
      assert HopFault(TopologyOf(a.context), hops, i, o) == None;
      LaterInTime(hops[i].hop.expiresAtUnix, Latest(hops), o, later);
    }
    ToleratedChainAcceptedAgain(a, later);
  }

  lemma LaterInTime(expires: int, latest: int, o: Options, later: int)
    requires expires <= latest && Unix(o.now - Skew(o)) < expires && (latest - expires) * SECOND < Skew(o)
    requires later == if o.now <= latest * SECOND then latest * SECOND else o.now
    ensures Unix(later - Skew(o)) < expires <= Unix(later)
  {}

  /** Any positive tolerance defeats the cache for chains of one record: every accepted one is accepted a second
      time. */
  lemma SkewAllowsReplay(a: HopAttempt)
    requires Verify(a.context, a.chain, a.options, EMPTY).0 == None && |a.chain.hops| == 1
    ensures (exists later :: a.options.now <= later && HopRun([a, Again(a, later)]).accepted == [a, Again(a, later)])
       <==> !a.options.cached || a.options.clockSkew > 0
  {
    hide Verify, HopRun;
    ReplayExactly(a);
    assert (a.chain.hops[0].hop.expiresAtUnix - a.chain.hops[0].hop.expiresAtUnix) * SECOND == 0;
  }
}
