/** The odd-tail-duplicating Merkle tree over evidence leaves, its inclusion proofs and their verifier. */
module Merkle {
  import opened Results
  import opened Numbers
  import opened Text
  import opened DigestTexts
  import opened Evidence

  datatype ProofStep = ProofStep(sha256: HexDigest, left: bool)

  datatype MerkleProof = MerkleProof(index: int, leafCount: int, siblings: seq<ProofStep>)

  // ---------------------------------------------------------------------------------------------
  // Trees

  function LeafHashes(leaves: seq<Leaf>): seq<Digest> {
    seq(|leaves|, i requires 0 <= i < |leaves| => LeafHash(leaves[i]))
  }

  /** The parent at position `i`: an odd tail is paired with itself. */
  function Parent(level: seq<Digest>, i: nat): Digest
    requires 2 * i < |level|
  {
    NodeHash(level[2 * i], if 2 * i + 1 < |level| then level[2 * i + 1] else level[2 * i])
  }

  function Parents(level: seq<Digest>): (r: seq<Digest>)
    ensures |r| == (|level| + 1) / 2
  {
    seq((|level| + 1) / 2, i requires 0 <= i < (|level| + 1) / 2 => Parent(level, i))
  }

  function Levels(level: seq<Digest>): (r: seq<seq<Digest>>)
    requires level != []
    ensures |r| == Depth(|level|) + 1 && r[0] == level
    decreases |level|
  {
    if |level| == 1 then [level] else [level] + Levels(Parents(level))
  }

  function RootOf(level: seq<Digest>): Digest
    requires level != []
    decreases |level|
  {
    if |level| == 1 then level[0] else RootOf(Parents(level))
  }

  /** How often a width must be halved, rounding up, to reach one. */
  function Depth(width: nat): nat {
    if width <= 1 then 0 else 1 + Depth((width + 1) / 2)
  }

  /** `BuildMerkleRoot`'s acceptance: a nonempty list of valid leaves with distinct identifiers. */
  ghost predicate Accepts(leaves: seq<Leaf>) {
    leaves != [] && forall i :: 0 <= i < |leaves| ==> LeafFault(leaves, i) == None
  }

  /** What `merkleLevels` objects to at position `i`; the duplicate check comes first. */
  ghost function LeafFault(leaves: seq<Leaf>, i: nat): Option<Error>
    requires i < |leaves|
  {
    if exists j :: 0 <= j < i && leaves[j].id == leaves[i].id then Some(DuplicateEvidence)
    else if !ValidLeaf(leaves[i]) then Some(InvalidEvidence)
    else None
  }

  /** A list is accepted exactly when it is not empty, no identifier repeats, and every leaf has an identifier, a
      subject, a kind, a lower-case digest and a time. */
  lemma AcceptsExactly(leaves: seq<Leaf>)
    ensures Accepts(leaves)
       <==> && leaves != [] && (forall i, j :: 0 <= i < j < |leaves| ==> leaves[i].id != leaves[j].id)
            && forall i :: 0 <= i < |leaves| ==>
                 var l := leaves[i];
                 && TrimSpace(l.id) != "" && TrimSpace(l.subject) != "" && TrimSpace(l.kind) != ""
                 && l.payloadSHA256.Hex? && l.payloadSHA256 == Hex(l.payloadSHA256.value, "", "")
                 && l.observedAtUnix > 0
  {
    hide TrimSpace;
    if Accepts(leaves) {
      forall i | 0 <= i < |leaves| ensures ValidLeaf(leaves[i]) { assert LeafFault(leaves, i) == None; }
      forall i, j | 0 <= i < j < |leaves| ensures leaves[i].id != leaves[j].id { assert LeafFault(leaves, j) == None; }
    }
  }

  /** The error reported: that of the first position with a fault. */
  ghost predicate Reports(leaves: seq<Leaf>, e: Error) {
    || (leaves == [] && e == InvalidEvidence)
    || exists i :: 0 <= i < |leaves| && LeafFault(leaves, i) == Some(e)
                   && forall j :: 0 <= j < i ==> LeafFault(leaves, j) == None
  }

  /** The bottom level: every leaf is checked for a repeated identifier, then hashed. */
  method LeafLevel(leaves: seq<Leaf>) returns (r: Result<seq<Digest>, Error>)
    requires leaves != []
    ensures r.Ok? <==> Accepts(leaves)
    ensures r.Ok? ==> r.value == LeafHashes(leaves)
    ensures r.Err? ==> Reports(leaves, r.error)
  {
    var seen: set<string> := {};
    var first: seq<Digest> := [];
    for i := 0 to |leaves|
      invariant forall j :: 0 <= j < i ==> LeafFault(leaves, j) == None
      invariant seen == set j | 0 <= j < i :: leaves[j].id
      invariant first == LeafHashes(leaves)[..i]
    {
      if leaves[i].id in seen {
        assert LeafFault(leaves, i) == Some(DuplicateEvidence);
        return Err(DuplicateEvidence);
      }
      assert forall j :: 0 <= j < i ==> leaves[j].id in seen;
      if !ValidLeaf(leaves[i]) {
        assert LeafFault(leaves, i) == Some(InvalidEvidence);
        return Err(InvalidEvidence);
      }
      seen := seen + {leaves[i].id};
      first := first + [LeafHash(leaves[i])];
    }
    return Ok(first);
  }

  method MerkleLevels(leaves: seq<Leaf>) returns (r: Result<seq<seq<Digest>>, Error>)
    ensures r.Ok? <==> Accepts(leaves)
    ensures r.Ok? ==> r.value == Levels(LeafHashes(leaves))
    ensures r.Err? ==> Reports(leaves, r.error)
  {
    if |leaves| == 0 { return Err(InvalidEvidence); }
    var first := LeafLevel(leaves);
    if first.Err? { return Err(first.error); }
    var levels := [first.value];
    while |levels[|levels| - 1]| > 1
      invariant levels != [] && levels[|levels| - 1] != []
      invariant levels + Levels(levels[|levels| - 1])[1..] == Levels(first.value)
      decreases |levels[|levels| - 1]|
    {
      var next := ParentLevel(levels[|levels| - 1]);
      assert Levels(levels[|levels| - 1])[1..] == Levels(next) == [next] + Levels(next)[1..];
      assert levels + ([next] + Levels(next)[1..]) == (levels + [next]) + Levels(next)[1..];
      levels := levels + [next];
    }
    return Ok(levels);
  }

  method ParentLevel(current: seq<Digest>) returns (next: seq<Digest>)
    ensures next == Parents(current)
  {
    next := [];
    var i := 0;
    while i < |current|
      invariant 0 <= i <= |current| + 1 && i % 2 == 0
      invariant |next| == i / 2 && next == Parents(current)[..i / 2]
    {
      var right := current[i];
      if i + 1 < |current| { right := current[i + 1]; }
      assert Parents(current)[i / 2] == NodeHash(current[i], right);
      next := next + [NodeHash(current[i], right)];
      i := i + 2;
    }
  }

  lemma {:induction false} LastLevelIsRoot(level: seq<Digest>)
    requires level != []
    ensures Levels(level)[Depth(|level|)] == [RootOf(level)]
    decreases |level|
  {
    if |level| > 1 { LastLevelIsRoot(Parents(level)); }
  }

  method BuildMerkleRoot(leaves: seq<Leaf>) returns (r: Result<HexDigest, Error>)
    ensures r.Ok? <==> Accepts(leaves)
    ensures r.Ok? ==> r.value == Encode(RootOf(LeafHashes(leaves)))
    ensures r.Err? ==> Reports(leaves, r.error)
  {
    var levels := MerkleLevels(leaves);
    match levels {
      case Err(e) => return Err(e);
      case Ok(ls) =>
        LastLevelIsRoot(LeafHashes(leaves));
        return Ok(Encode(ls[|ls| - 1][0]));
    }
  }

  // ---------------------------------------------------------------------------------------------
  // Roots determine the leaves

  /** A complete binary tree of leaf hashes of height `h`. */
  ghost predicate Uniform(d: Digest, h: nat) {
    if h == 0 then d.LeafHash? else d.NodeHash? && Uniform(d.left, h - 1) && Uniform(d.right, h - 1)
  }

  ghost predicate UniformLevel(level: seq<Digest>, h: nat) {
    forall i :: 0 <= i < |level| ==> Uniform(level[i], h)
  }

  ghost predicate Distinct<T>(s: seq<T>) {
    forall i, j :: 0 <= i < j < |s| ==> s[i] != s[j]
  }

  lemma {:induction false} RootUniform(level: seq<Digest>, h: nat)
    requires level != [] && UniformLevel(level, h)
    ensures Uniform(RootOf(level), h + Depth(|level|))
    decreases |level|
  {
    if |level| > 1 {
      forall i | 0 <= i < |Parents(level)| ensures Uniform(Parents(level)[i], h + 1) {
        assert Parents(level)[i] == Parent(level, i);
      }
      RootUniform(Parents(level), h + 1);
    }
  }

  lemma {:induction false} UniformHeightUnique(d: Digest, g: nat, h: nat)
    requires Uniform(d, g) && Uniform(d, h)
    ensures g == h
  {
    if g != 0 && h != 0 { UniformHeightUnique(d.left, g - 1, h - 1); }
  }

  lemma ParentsDistinct(level: seq<Digest>)
    requires Distinct(level)
    ensures Distinct(Parents(level))
  {
    forall i, j | 0 <= i < j < |Parents(level)| ensures Parents(level)[i] != Parents(level)[j] {
      assert Parents(level)[i].left == level[2 * i] && Parents(level)[j].left == level[2 * j];
    }
  }

  /** Without repeated digests a level is determined by the level above it. */
  lemma ParentsInjective(x: seq<Digest>, y: seq<Digest>)
    requires Distinct(x) && Distinct(y) && Parents(x) == Parents(y)
    ensures x == y
  {
    forall i | 0 <= i < |x| && i < |y| ensures x[i] == y[i] {
      assert Parents(x)[i / 2] == Parent(x, i / 2) && Parents(y)[i / 2] == Parent(y, i / 2);
    }
    if |x| < |y| {
      OddTailRepeats(x, y);
    } else if |y| < |x| {
      OddTailRepeats(y, x);
    }
  }

  /** Two different widths under one parent level: the longer list repeats its tail. */
  lemma OddTailRepeats(x: seq<Digest>, y: seq<Digest>)
    requires |x| < |y| && Parents(x) == Parents(y)
    ensures !Distinct(y)
  {
    var i := |x| / 2;
    assert |y| == |x| + 1 && |x| == 2 * i + 1;
    assert Parents(x)[i] == Parent(x, i) && Parents(y)[i] == Parent(y, i);
    assert y[2 * i] == y[2 * i + 1];
  }

  lemma {:induction false} LevelInjective(x: seq<Digest>, y: seq<Digest>, h: nat)
    requires x != [] && y != [] && UniformLevel(x, h) && UniformLevel(y, h)
    requires Distinct(x) && Distinct(y) && RootOf(x) == RootOf(y)
    ensures x == y
    decreases |x|
  {
    RootUniform(x, h);
    RootUniform(y, h);
    UniformHeightUnique(RootOf(x), h + Depth(|x|), h + Depth(|y|));
    if |x| > 1 {
      assert |y| > 1;
      forall i | 0 <= i < |Parents(x)| ensures Uniform(Parents(x)[i], h + 1) {
        assert Parents(x)[i] == Parent(x, i);
      }
      forall i | 0 <= i < |Parents(y)| ensures Uniform(Parents(y)[i], h + 1) {
        assert Parents(y)[i] == Parent(y, i);
      }
      ParentsDistinct(x);
      ParentsDistinct(y);
      LevelInjective(Parents(x), Parents(y), h + 1);
      ParentsInjective(x, y);
    }
  }

  lemma AcceptedDistinct(leaves: seq<Leaf>)
    requires Accepts(leaves)
    ensures Distinct(LeafHashes(leaves)) && UniformLevel(LeafHashes(leaves), 0)
  {
    forall i, j | 0 <= i < j < |leaves| ensures LeafHashes(leaves)[i] != LeafHashes(leaves)[j] {
      assert LeafFault(leaves, j) == None;
    }
  }

  /** Two accepted leaf lists of any lengths have the same root exactly when they are the same list. */
  lemma RootInjective(a: seq<Leaf>, b: seq<Leaf>)
    requires Accepts(a) && Accepts(b)
    ensures RootOf(LeafHashes(a)) == RootOf(LeafHashes(b)) <==> a == b
  {
    if RootOf(LeafHashes(a)) == RootOf(LeafHashes(b)) {
      AcceptedDistinct(a);
      AcceptedDistinct(b);
      LevelInjective(LeafHashes(a), LeafHashes(b), 0);
      forall i | 0 <= i < |a| && i < |b| ensures a[i] == b[i] {
        assert LeafHashes(a)[i] == LeafHash(a[i]) && LeafHashes(b)[i] == LeafHash(b[i]);
      }
    }
  }

  /** The ambiguity that the duplicate check removes: repeating the tail of any odd list of three or more
      leaves leaves the root unchanged. */
  lemma TailDuplicationCollides(leaves: seq<Leaf>)
    requires |leaves| >= 3 && |leaves| % 2 == 1
    ensures RootOf(LeafHashes(leaves)) == RootOf(LeafHashes(leaves + [leaves[|leaves| - 1]]))
    ensures !Accepts(leaves + [leaves[|leaves| - 1]])
  {
    var n := |leaves|;
    var longer := leaves + [leaves[n - 1]];
    var x, y := LeafHashes(leaves), LeafHashes(longer);
    assert y[..n] == x && y[n] == x[n - 1];
    forall i | 0 <= i < |Parents(x)| ensures Parents(x)[i] == Parents(y)[i] {
      assert Parents(x)[i] == Parent(x, i) && Parents(y)[i] == Parent(y, i);
    }
    assert Parents(x) == Parents(y);
    assert longer[n - 1].id == longer[n].id;
    assert LeafFault(longer, n) == Some(DuplicateEvidence);
  }

  // ---------------------------------------------------------------------------------------------
  // Inclusion proofs

  /** The index next to `position` in its pair: `position ^ 1`, or itself at an odd tail. */
  function Sibling(position: nat, width: nat): nat {
    if position % 2 == 1 then position - 1
    else if position + 1 < width then position + 1
    else position
  }

  /** The sibling digests from a level up to the root, with the side each stands on. */
  function ProofSteps(level: seq<Digest>, position: nat): (r: seq<ProofStep>)
    requires position < |level|
    ensures |r| == Depth(|level|)
    decreases |level|
  {
    if |level| == 1 then []
    else
      var s := Sibling(position, |level|);
      [ProofStep(Encode(level[s]), s < position)] + ProofSteps(Parents(level), position / 2)
  }

  lemma FirstStep(level: seq<Digest>, position: nat, sibling: nat)
    requires position < |level| && |level| > 1 && sibling == Sibling(position, |level|)
    ensures ProofSteps(level, position)
         == [ProofStep(Encode(level[sibling]), sibling < position)] + ProofSteps(Parents(level), position / 2)
  {}

  lemma Regroup<T>(a: seq<T>, x: T, b: seq<T>)
    ensures a + ([x] + b) == a + [x] + b
  {}

  method BuildMerkleProof(leaves: seq<Leaf>, index: int) returns (r: Result<MerkleProof, Error>)
    ensures r.Ok? <==> 0 <= index < |leaves| && Accepts(leaves)
    ensures r.Ok? ==> r.value == MerkleProof(index, |leaves|, ProofSteps(LeafHashes(leaves), index))
    ensures r.Err? && !(0 <= index < |leaves|) ==> r.error == InvalidProof
    ensures r.Err? && 0 <= index < |leaves| ==> Reports(leaves, r.error)
  {
    hide Accepts, Reports;
    if index < 0 || index >= |leaves| { return Err(InvalidProof); }
    var built := MerkleLevels(leaves);
    if built.Err? { return Err(built.error); }
    var levels := built.value;
    var steps: seq<ProofStep> := [];
    var position := index;
    ghost var base := LeafHashes(leaves);
    for level := 0 to |levels| - 1
      invariant 0 <= position < |levels[level]|
      invariant Levels(levels[level]) == levels[level..]
      invariant steps + ProofSteps(levels[level], position) == ProofSteps(base, index)
    {
      var nodes := levels[level];
      assert levels[level..][1..] == levels[level + 1..];
      assert levels[level + 1] == Parents(nodes);
      var sibling := if position % 2 == 0 then position + 1 else position - 1;
      if sibling >= |nodes| { sibling := position; }
      var step := ProofStep(Encode(nodes[sibling]), sibling < position);
      FirstStep(nodes, position, sibling);
      Regroup(steps, step, ProofSteps(Parents(nodes), position / 2));
      steps := steps + [step];
      position := position / 2;
    }
    return Ok(MerkleProof(index, |leaves|, steps));
  }

  /** On which side the verifier expects the sibling of `position` in a level of `width` nodes. */
  function ExpectedLeft(position: nat, width: nat): bool {
    if position == width - 1 && width % 2 == 1 then false else position % 2 == 1
  }

  /** Folds the siblings from `current` upwards; `None` when a step is malformed or the path does not end
      at position 0 of a level of width 1. */
  function Climb(current: Digest, position: nat, width: nat, steps: seq<ProofStep>): Option<Digest>
    decreases |steps|
  {
    if steps == [] then if position == 0 && width == 1 then Some(current) else None
    else
      var step := steps[0];
      if !Decodes(step.sha256) || step.left != ExpectedLeft(position, width) then None
      else
        var next := if step.left then NodeHash(step.sha256.value, current) else NodeHash(current, step.sha256.value);
        Climb(next, position / 2, (width + 1) / 2, steps[1..])
  }

  /** The verdict of `VerifyMerkleProof`. */
  predicate Verifies(leaf: Leaf, root: HexDigest, proof: MerkleProof) {
    && 0 <= proof.index < proof.leafCount && IsDigest(root) && ValidLeaf(leaf)
    && Climb(LeafHash(leaf), proof.index, proof.leafCount, proof.siblings) == Some(root.value)
  }

  method VerifyMerkleProof(leaf: Leaf, root: HexDigest, proof: MerkleProof) returns (r: Option<Error>)
    ensures r.None? <==> Verifies(leaf, root, proof)
    ensures r == Some(InvalidEvidence) <==> 0 <= proof.index < proof.leafCount && IsDigest(root) && !ValidLeaf(leaf)
    ensures r.Some? ==> r.value in {InvalidEvidence, InvalidProof}
  {
    if proof.leafCount <= 0 || proof.index < 0 || proof.index >= proof.leafCount || !IsDigest(root) {
      return Some(InvalidProof);
    }
    if !ValidLeaf(leaf) { return Some(InvalidEvidence); }
    var current := LeafHash(leaf);
    var position, width := proof.index, proof.leafCount;
    for k := 0 to |proof.siblings|
      invariant 0 <= position && 0 < width
      invariant Climb(current, position, width, proof.siblings[k..])
             == Climb(LeafHash(leaf), proof.index, proof.leafCount, proof.siblings)
    {
      var step := proof.siblings[k];
      assert proof.siblings[k..][1..] == proof.siblings[k + 1..];
      if !Decodes(step.sha256) { return Some(InvalidProof); }
      var expectedLeft := position % 2 == 1;
      if position == width - 1 && width % 2 == 1 { expectedLeft := false; }
      if step.left != expectedLeft { return Some(InvalidProof); }
      if step.left {
        current := NodeHash(step.sha256.value, current);
      } else {
        current := NodeHash(current, step.sha256.value);
      }
      position := position / 2;
      width := (width + 1) / 2;
    }
    if position != 0 || width != 1 || root != Encode(current) { return Some(InvalidProof); }
    return None;
  }

  /** Built steps climb from the leaf they were built for to the root, through every odd-width level. */
  lemma {:induction false} BuiltStepsClimb(level: seq<Digest>, position: nat)
    requires position < |level|
    ensures Climb(level[position], position, |level|, ProofSteps(level, position)) == Some(RootOf(level))
    decreases |level|
  {
    if |level| > 1 {
      var s := Sibling(position, |level|);
      assert Parents(level)[position / 2] == Parent(level, position / 2);
      var steps := ProofSteps(level, position);
      assert steps[1..] == ProofSteps(Parents(level), position / 2);
      BuiltStepsClimb(Parents(level), position / 2);
    }
  }

  lemma BuiltProofVerifies(leaves: seq<Leaf>, index: nat)
    requires Accepts(leaves) && index < |leaves|
    ensures Verifies(leaves[index], Encode(RootOf(LeafHashes(leaves))),
                     MerkleProof(index, |leaves|, ProofSteps(LeafHashes(leaves), index)))
  {
    assert LeafFault(leaves, index) == None;
    BuiltStepsClimb(LeafHashes(leaves), index);
  }

  /** The digests below `d`, `depth` levels down. */
  ghost function Below(d: Digest, depth: nat): set<Digest> {
    if depth == 0 then {d}
    else if d.NodeHash? then Below(d.left, depth - 1) + Below(d.right, depth - 1)
    else {}
  }

  lemma {:induction false} BelowTrans(d: Digest, e: Digest, f: Digest, j: nat, k: nat)
    requires e in Below(d, j) && f in Below(e, k)
    ensures f in Below(d, j + k)
    decreases j
  {
    if j != 0 {
      if e in Below(d.left, j - 1) {
        BelowTrans(d.left, e, f, j - 1, k);
      } else {
        BelowTrans(d.right, e, f, j - 1, k);
      }
    }
  }

  /** Whatever index and width are claimed, climbing buries the start `|steps|` levels under the result. */
  lemma {:induction false} ClimbBuries(current: Digest, position: nat, width: nat, steps: seq<ProofStep>)
    requires Climb(current, position, width, steps).Some?
    ensures current in Below(Climb(current, position, width, steps).value, |steps|)
    decreases |steps|
  {
    if steps != [] {
      var step := steps[0];
      var next := if step.left then NodeHash(step.sha256.value, current) else NodeHash(current, step.sha256.value);
      ClimbBuries(next, position / 2, (width + 1) / 2, steps[1..]);
      assert current in Below(next, 1) by {
        assert Below(next, 1) == Below(next.left, 0) + Below(next.right, 0);
      }
      BelowTrans(Climb(current, position, width, steps).value, next, current, |steps| - 1, 1);
    }
  }

  lemma {:induction false} BelowUniform(d: Digest, h: nat, depth: nat, e: Digest)
    requires Uniform(d, h) && e in Below(d, depth)
    ensures depth <= h && Uniform(e, h - depth)
  {
    if depth != 0 {
      if e in Below(d.left, depth - 1) {
        BelowUniform(d.left, h - 1, depth - 1, e);
      } else {
        BelowUniform(d.right, h - 1, depth - 1, e);
      }
    }
  }

  /** Below the root of a level, at the level's own depth, stand only the level's own digests. */
  lemma {:induction false} BelowRoot(level: seq<Digest>, e: Digest, extra: nat)
    requires level != [] && e in Below(RootOf(level), Depth(|level|) + extra)
    ensures exists i :: 0 <= i < |level| && e in Below(level[i], extra)
    decreases |level|
  {
    if |level| > 1 {
      BelowRoot(Parents(level), e, extra + 1);
      var i :| 0 <= i < |Parents(level)| && e in Below(Parents(level)[i], extra + 1);
      assert Parents(level)[i] == Parent(level, i);
      var p := Parent(level, i);
      if e in Below(p.left, extra) {
        assert e in Below(level[2 * i], extra);
      } else {
        assert e in Below(p.right, extra);
        assert p.right == level[if 2 * i + 1 < |level| then 2 * i + 1 else 2 * i];
      }
    }
  }

  /** A climb from a leaf hash to the root of a bottom level has exactly the depth of that tree. */
  lemma ClimbDepth(current: Digest, position: nat, width: nat, steps: seq<ProofStep>, level: seq<Digest>)
    requires level != [] && UniformLevel(level, 0) && current.LeafHash?
    requires Climb(current, position, width, steps) == Some(RootOf(level))
    ensures |steps| == Depth(|level|) && current in Below(RootOf(level), Depth(|level|))
  {
    RootUniform(level, 0);
    ClimbBuries(current, position, width, steps);
    BelowUniform(RootOf(level), Depth(|level|), |steps|, current);
  }

  /** Soundness whatever index, leaf count and siblings are claimed: the leaf is in the list. */
  lemma ProofSound(leaf: Leaf, leaves: seq<Leaf>, proof: MerkleProof)
    requires Accepts(leaves) && Verifies(leaf, Encode(RootOf(LeafHashes(leaves))), proof)
    ensures leaf in leaves
  {
    AcceptedDistinct(leaves);
    ClimbDepth(LeafHash(leaf), proof.index, proof.leafCount, proof.siblings, LeafHashes(leaves));
    BelowRoot(LeafHashes(leaves), LeafHash(leaf), 0);
    var i :| 0 <= i < |leaves| && LeafHash(leaf) in Below(LeafHashes(leaves)[i], 0);
    assert leaf == leaves[i];
  }

  /** Equal up to the casing of the hexadecimal digits. */
  ghost predicate SameSteps(s: seq<ProofStep>, t: seq<ProofStep>) {
    |s| == |t| && forall i :: 0 <= i < |s| ==>
      && s[i].left == t[i].left && s[i].sha256.Hex? && t[i].sha256.Hex? && s[i].sha256.value == t[i].sha256.value
      && s[i].sha256.padding == "" && t[i].sha256.padding == ""
  }

  // ---------------------------------------------------------------------------------------------
  // Every accepted proof

  /** A tree of depth `d` has 2^d slots at the bottom.  This is the position, in a list of `width`, whose digest stands
      in slot `p`: a slot past the end is a copy made where an odd level repeated its tail. */
  function Slot(p: nat, width: nat): (i: nat)
    requires width > 0
    ensures i < width
    decreases width
  {
    if width == 1 then 0
    else
      var q := Slot(p / 2, (width + 1) / 2);
      if p % 2 == 1 && 2 * q + 1 < width then 2 * q + 1 else 2 * q
  }

  /** The siblings on the way up from slot `p`, with the sides they stand on. */
  function SlotSteps(level: seq<Digest>, p: nat): (r: seq<ProofStep>)
    requires level != []
    ensures |r| == Depth(|level|)
    decreases |level|
  {
    if |level| == 1 then []
    else
      var pair := Parents(level)[Slot(p / 2, (|level| + 1) / 2)];
      [ProofStep(Encode(if p % 2 == 1 then pair.left else pair.right), p % 2 == 1)] + SlotSteps(Parents(level), p / 2)
  }

  /** Slots within the list hold the list, and their way up is the built one. */
  lemma {:induction false} SlotWithin(level: seq<Digest>, p: nat)
    requires p < |level|
    ensures Slot(p, |level|) == p && SlotSteps(level, p) == ProofSteps(level, p)
    decreases |level|
  {
    hide Slot, SlotSteps, ProofSteps;
    SlotSelf(p, |level|);
    FirstSlotStep(level, p);
    if |level| > 1 {
      SlotWithin(Parents(level), p / 2);
      FirstStep(level, p, Sibling(p, |level|));
      PairSibling(level, p);
    } else {
      NoSteps(level, p);
    }
  }

  lemma FirstSlotStep(level: seq<Digest>, p: nat)
    requires level != []
    ensures |level| > 1 ==>
              var pair := Parents(level)[Slot(p / 2, (|level| + 1) / 2)];
              SlotSteps(level, p) == [ProofStep(Encode(if p % 2 == 1 then pair.left else pair.right), p % 2 == 1)]
                                     + SlotSteps(Parents(level), p / 2)
  {
    hide Slot, Encode;
  }

  lemma PairSibling(level: seq<Digest>, p: nat)
    requires p < |level| && |level| > 1
    ensures var s, pair := Sibling(p, |level|), Parents(level)[p / 2];
            level[s] == (if p % 2 == 1 then pair.left else pair.right) && (s < p <==> p % 2 == 1)
  {
    assert Parents(level)[p / 2] == Parent(level, p / 2);
  }

  lemma NoSteps(level: seq<Digest>, p: nat)
    requires |level| == 1 && p == 0
    ensures SlotSteps(level, p) == [] == ProofSteps(level, p)
  {}

  lemma {:induction false} SlotSelf(p: nat, width: nat)
    requires p < width
    ensures Slot(p, width) == p
    decreases width
  {
    if width > 1 { SlotSelf(p / 2, (width + 1) / 2); }
  }

  /** The pair that slot `p` belongs to. */
  lemma SlotPair(level: seq<Digest>, p: nat)
    requires |level| > 1
    ensures var pair := Parents(level)[Slot(p / 2, (|level| + 1) / 2)];
            pair.NodeHash? && level[Slot(p, |level|)] == if p % 2 == 1 then pair.right else pair.left
  {
    var q := Slot(p / 2, (|level| + 1) / 2);
    assert Parents(level)[q] == Parent(level, q);
  }

  /** Whatever width is claimed, a climb of the tree's depth to its root starts at the digest in slot `position` and
      passes exactly that slot's siblings. */
  lemma {:induction false} ClimbFromSlot(current: Digest, position: nat, width: nat, level: seq<Digest>,
                                         steps: seq<ProofStep>)
    requires level != [] && |steps| == Depth(|level|)
    requires Climb(current, position, width, steps) == Some(RootOf(level))
    ensures current == level[Slot(position, |level|)] && SameSteps(steps, SlotSteps(level, position))
    decreases |level|
  {
    hide RootOf, Parents, Slot;
    if |level| > 1 {
      RootStep(level);
      var step := steps[0];
      var next := if step.left then NodeHash(step.sha256.value, current) else NodeHash(current, step.sha256.value);
      ClimbFromSlot(next, position / 2, (width + 1) / 2, Parents(level), steps[1..]);
      SlotPair(level, position);
      var built := SlotSteps(level, position);
      assert built[1..] == SlotSteps(Parents(level), position / 2);
      SameFirst(steps, built);
    } else {
      RootStep(level);
      SlotOfOne(position);
    }
  }

  lemma RootStep(level: seq<Digest>)
    requires level != []
    ensures RootOf(level) == if |level| == 1 then level[0] else RootOf(Parents(level))
  {}

  lemma SlotOfOne(p: nat)
    ensures Slot(p, 1) == 0
  {}

  /** And from every slot below a claimed width that shrinks to one, that climb reaches the root. */
  lemma {:induction false} SlotClimbs(position: nat, width: nat, level: seq<Digest>)
    requires level != [] && position < width && Depth(width) <= Depth(|level|)
    ensures Climb(level[Slot(position, |level|)], position, width, SlotSteps(level, position)) == Some(RootOf(level))
    decreases |level|
  {
    hide RootOf, Parents, Slot, SlotSteps, Climb;
    RootStep(level);
    if |level| > 1 {
      SlotPair(level, position);
      FirstSlotStep(level, position);
      SlotClimbs(position / 2, (width + 1) / 2, Parents(level));
      ClimbOn(level[Slot(position, |level|)], position, width, SlotSteps(level, position));
    } else {
      SlotOfOne(position);
      assert SlotSteps(level, position) == [];
      ClimbOn(level[0], position, width, []);
    }
  }

  lemma ClimbOn(current: Digest, position: nat, width: nat, steps: seq<ProofStep>)
    ensures steps == [] ==>
              Climb(current, position, width, steps) ==
                if position == 0 && width == 1 then Some(current) else None
    ensures steps != [] && Decodes(steps[0].sha256) && steps[0].left == (position % 2 == 1) ==>
              Climb(current, position, width, steps) ==
                Climb(if steps[0].left then NodeHash(steps[0].sha256.value, current)
                      else NodeHash(current, steps[0].sha256.value), position / 2, (width + 1) / 2, steps[1..])
  {}

  /** A climb that ends well started below a width that its length shrinks to one. */
  lemma {:induction false} ClimbShrinks(current: Digest, position: nat, width: nat, steps: seq<ProofStep>)
    requires Climb(current, position, width, steps).Some?
    ensures Depth(width) <= |steps|
    decreases |steps|
  {
    if steps != [] {
      var next := if steps[0].left then NodeHash(steps[0].sha256.value, current)
                  else NodeHash(current, steps[0].sha256.value);
      ClimbShrinks(next, position / 2, (width + 1) / 2, steps[1..]);
    }
  }

  lemma SameFirst(a: seq<ProofStep>, b: seq<ProofStep>)
    requires a != [] && b != [] && SameSteps(a[1..], b[1..])
    requires a[0].left == b[0].left && Decodes(a[0].sha256) && Decodes(b[0].sha256)
    requires a[0].sha256.value == b[0].sha256.value
    ensures SameSteps(a, b)
  {
    forall i | 1 <= i < |a| ensures a[i] == a[1..][i - 1] && b[i] == b[1..][i - 1] {}
  }

  /** What verification accepts, whatever a proof claims: a leaf count no deeper than the tree, and the leaf in the
      slot of the claimed index with that slot's siblings, in any casing. */
  lemma ProofExact(leaf: Leaf, leaves: seq<Leaf>, proof: MerkleProof)
    requires Accepts(leaves)
    ensures Verifies(leaf, Encode(RootOf(LeafHashes(leaves))), proof)
       <==> 0 <= proof.index < proof.leafCount && Depth(proof.leafCount) <= Depth(|leaves|)
            && leaf == leaves[Slot(proof.index, |leaves|)]
            && SameSteps(proof.siblings, SlotSteps(LeafHashes(leaves), proof.index))
  {
    hide RootOf, Slot, SlotSteps;
    var level := LeafHashes(leaves);
    if Verifies(leaf, Encode(RootOf(level)), proof) {
      AcceptedDistinct(leaves);
      ClimbDepth(LeafHash(leaf), proof.index, proof.leafCount, proof.siblings, level);
      ClimbShrinks(LeafHash(leaf), proof.index, proof.leafCount, proof.siblings);
      ClimbFromSlot(LeafHash(leaf), proof.index, proof.leafCount, level, proof.siblings);
    } else if 0 <= proof.index < proof.leafCount && Depth(proof.leafCount) <= Depth(|leaves|)
              && leaf == leaves[Slot(proof.index, |leaves|)]
              && SameSteps(proof.siblings, SlotSteps(level, proof.index)) {
      assert LeafFault(leaves, Slot(proof.index, |leaves|)) == None;
      SlotClimbs(proof.index, proof.leafCount, level);
      CasingIrrelevant(LeafHash(leaf), proof.index, proof.leafCount, proof.siblings, SlotSteps(level, proof.index));
    }
  }

  /** An index within the list is bound, whatever leaf count is claimed: the leaf is the one at that index and the
      siblings are the built ones. */
  lemma IndexBound(leaf: Leaf, leaves: seq<Leaf>, proof: MerkleProof)
    requires Accepts(leaves) && Verifies(leaf, Encode(RootOf(LeafHashes(leaves))), proof)
    ensures proof.index < |leaves| ==>
              leaf == leaves[proof.index] && SameSteps(proof.siblings, ProofSteps(LeafHashes(leaves), proof.index))
    ensures proof.index < Pow2(Depth(|leaves|))
  {
    hide RootOf, SlotSteps, ProofSteps, Slot;
    ProofExact(leaf, leaves, proof);
    if proof.index < |leaves| { SlotWithin(LeafHashes(leaves), proof.index); }
    WidthBelowPow2(proof.leafCount);
    Pow2Monotone(Depth(proof.leafCount), Depth(|leaves|));
  }

  /** With the list's own leaf count: exactly the leaf at the claimed index with the built siblings. */
  lemma TrueCountExact(leaf: Leaf, leaves: seq<Leaf>, proof: MerkleProof)
    requires Accepts(leaves) && proof.leafCount == |leaves|
    ensures Verifies(leaf, Encode(RootOf(LeafHashes(leaves))), proof)
       <==> 0 <= proof.index < |leaves| && leaf == leaves[proof.index]
            && SameSteps(proof.siblings, ProofSteps(LeafHashes(leaves), proof.index))
  {
    hide RootOf, SlotSteps, ProofSteps, Slot;
    ProofExact(leaf, leaves, proof);
    if 0 <= proof.index < |leaves| { SlotWithin(LeafHashes(leaves), proof.index); }
  }

  /** Every index from the list's length up to the number of slots is accepted too, for the leaf copied there: an
      accepted index is the leaf's own exactly when it is below the list's length. */
  lemma CopiesAccepted(leaves: seq<Leaf>, p: nat)
    requires Accepts(leaves) && p < Pow2(Depth(|leaves|))
    ensures Verifies(leaves[Slot(p, |leaves|)], Encode(RootOf(LeafHashes(leaves))),
                     MerkleProof(p, Pow2(Depth(|leaves|)), SlotSteps(LeafHashes(leaves), p)))
    ensures Slot(p, |leaves|) == p <==> p < |leaves|
  {
    hide RootOf, SlotSteps, ProofSteps, Slot;
    var level := LeafHashes(leaves);
    DepthOfPow2(Depth(|leaves|));
    ProofExact(leaves[Slot(p, |leaves|)], leaves, MerkleProof(p, Pow2(Depth(|leaves|)), SlotSteps(level, p)));
    StepsDecode(level, p);
    if p < |leaves| { SlotWithin(level, p); }
  }

  lemma {:induction false} StepsDecode(level: seq<Digest>, p: nat)
    requires level != []
    ensures SameSteps(SlotSteps(level, p), SlotSteps(level, p))
    decreases |level|
  {
    hide Parents, Slot;
    if |level| > 1 {
      SlotPair(level, p);
      StepsDecode(Parents(level), p / 2);
      var steps := SlotSteps(level, p);
      assert steps[1..] == SlotSteps(Parents(level), p / 2);
      SameFirst(steps, steps);
    }
  }

  lemma {:induction false} WidthBelowPow2(width: nat)
    ensures width <= Pow2(Depth(width))
  {
    if width > 1 { WidthBelowPow2((width + 1) / 2); }
  }

  lemma {:induction false} DepthOfPow2(d: nat)
    ensures Depth(Pow2(d)) == d
  {
    if d > 0 {
      DepthOfPow2(d - 1);
      Pow2Monotone(0, d - 1);
    }
  }

  lemma {:induction false} CasingIrrelevant(current: Digest, position: nat, width: nat, s: seq<ProofStep>,
                                            t: seq<ProofStep>)
    requires SameSteps(s, t)
    ensures Climb(current, position, width, s) == Climb(current, position, width, t)
    decreases |s|
  {
    if s != [] {
      var next := if s[0].left then NodeHash(s[0].sha256.value, current) else NodeHash(current, s[0].sha256.value);
      CasingIrrelevant(next, position / 2, (width + 1) / 2, s[1..], t[1..]);
    }
  }

  /** The smallest list with a copy: the third of three leaves is accepted as the fourth of four. */
  lemma ThirdLeafAcceptedAsFourth(a: Leaf, b: Leaf, c: Leaf)
    requires Accepts([a, b, c])
    ensures Verifies(c, Encode(RootOf(LeafHashes([a, b, c]))),
                     MerkleProof(3, 4, [ProofStep(Encode(LeafHash(c)), true),
                                        ProofStep(Encode(NodeHash(LeafHash(a), LeafHash(b))), true)]))
  {
    hide RootOf, Slot, SlotSteps, Encode;
    CopiesAccepted([a, b, c], 3);
    ThreeLeavesSlot();
    ThreeLeavesSteps(LeafHash(a), LeafHash(b), LeafHash(c));
    assert LeafHashes([a, b, c]) == [LeafHash(a), LeafHash(b), LeafHash(c)];
    assert Pow2(Depth(3)) == 4 by { assert Depth(1) == 0 && Depth(2) == 1 && Pow2(0) == 1 && Pow2(1) == 2; }
  }

  lemma ThreeLeavesSlot()
    ensures Slot(1, 2) == 1 && Slot(3, 3) == 2
  {
    SlotOfOne(0);
  }

  lemma TwoNodesSteps(x: Digest, y: Digest)
    ensures SlotSteps([x, y], 1) == [ProofStep(Encode(x), true)]
  {
    hide Encode;
    var above := Parents([x, y]);
    assert above == [Parent([x, y], 0)];
    SlotOfOne(0);
    assert SlotSteps(above, 0) == [];
  }

  lemma ThreeLeavesSteps(x: Digest, y: Digest, z: Digest)
    ensures SlotSteps([x, y, z], 3) == [ProofStep(Encode(z), true), ProofStep(Encode(NodeHash(x, y)), true)]
  {
    hide Encode, SlotSteps, Slot;
    var level := [x, y, z];
    assert Parents(level) == [NodeHash(x, y), NodeHash(z, z)] by {
      assert Parents(level)[0] == Parent(level, 0) && Parents(level)[1] == Parent(level, 1);
    }
    FirstSlotStep(level, 3);
    ThreeLeavesSlot();
    TwoNodesSteps(NodeHash(x, y), NodeHash(z, z));
  }
}
