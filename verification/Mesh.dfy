/** Loop-protected mesh envelopes forwarded along a line of nodes under generated route rules. */
module Mesh {
  import opened Results
  import opened Text
  import opened Topics

  const MESH_ENVELOPE_VERSION := "weaverssh.pubsub.mesh.v1"
  const EVENT_VERSION := "weaverssh.pubsub.v1"
  const DEFAULT_MAX_HOPS := 16

  datatype Event = Event(version: string, id: string, eventType: string, component: string, origin: string, at: string)

  datatype Envelope = Envelope(
    version: string, chainID: string, nodeID: string, originNodeID: string, hop: int, maxHops: int, path: seq<string>,
    topic: string, event: Event)

  datatype Action = Allow | Deny | Rewrite | Unknown(text: string)

  datatype Rule = Rule(id: string, action: Action, originNode: string, fromNode: string, toNode: string,
                       topicFilter: string, rewriteTopic: string)

  datatype Scheme = OneOne | OneMany | ManyToMany

  datatype MeshError = InvalidEnvelope | NextRequired | Loop | MaxHops | BadTopic | Denied | BadNodes

  predicate ValidEvent(e: Event) {
    && e.version == EVENT_VERSION && !Blank(e.eventType) && !Blank(e.component) && !Blank(e.id) && !Blank(e.at)
    && (Blank(e.origin) || LowerTrim(e.origin) in {"internal", "external", "pubsub"})
  }

  predicate ValidEnvelope(e: Envelope) {
    && e.version == MESH_ENVELOPE_VERSION && !Blank(e.chainID) && !Blank(e.nodeID) && !Blank(e.originNodeID)
    && e.maxHops > 0 && 0 <= e.hop <= e.maxHops && e.path != [] && e.nodeID in e.path && ValidPublish(e.topic)
    && ValidEvent(e.event)
  }

  function NewMeshEnvelope(prefix: string, chainID: string, nodeID: string, event: Event,
                           maxHops: int): Result<Envelope, MeshError> {
    var c, n := CleanTopicPart(chainID), CleanTopicPart(nodeID);
    if c == "" || n == "" || !ValidEvent(event) then Err(InvalidEnvelope)
    else
      var topic := NodeEventTopic(prefix, c, n, event.component, event.eventType);
      if topic.None? then Err(BadTopic)
      else
        var limit := if maxHops <= 0 then DEFAULT_MAX_HOPS else maxHops;
        Ok(Envelope(MESH_ENVELOPE_VERSION, c, n, n, 0, limit, [n], topic.value, event))
  }

  function ForwardTo(e: Envelope, prefix: string, next: string): Result<Envelope, MeshError> {
    var n := CleanTopicPart(next);
    if !ValidEnvelope(e) then Err(InvalidEnvelope)
    else if n == "" then Err(NextRequired)
    else if n in e.path then Err(Loop)
    else if e.hop + 1 > e.maxHops then Err(MaxHops)
    else
      var topic := NodeEventTopic(prefix, e.chainID, n, e.event.component, e.event.eventType);
      if topic.None? then Err(BadTopic)
      else Ok(e.(nodeID := n, hop := e.hop + 1, path := e.path + [n], topic := topic.value))
  }

  /** `ruleMatches`: an empty selector matches anything, a filter is required. */
  ghost predicate RuleMatches(r: Rule, e: Envelope, next: string) {
    && (Blank(r.originNode) || CleanTopicPart(r.originNode) == e.originNodeID)
    && (Blank(r.fromNode) || CleanTopicPart(r.fromNode) == e.nodeID)
    && (Blank(r.toNode) || CleanTopicPart(r.toNode) == next)
    && !Blank(r.topicFilter) && Matches(SplitTopic(TrimSpace(r.topicFilter)), SplitTopic(e.topic))
  }

  /** The decision for a forward: whether it is allowed, and the topic it is published under. */
  datatype Decision = Decision(allowed: bool, topic: string)

  /** What a matching rule decides. */
  function Verdict(r: Rule, e: Envelope): Decision {
    match r.action
    case Allow => Decision(true, e.topic)
    case Rewrite => if Blank(r.rewriteTopic) then Decision(false, e.topic)
                    else Decision(true, TrimSpace(r.rewriteTopic))
    case _ => Decision(false, e.topic)
  }

  /** `DecideRoute` past validation: the first matching rule decides, and without one the forward is denied. */
  ghost function Decide(e: Envelope, next: string, rules: seq<Rule>): Decision {
    if rules == [] then Decision(false, e.topic)
    else if RuleMatches(rules[0], e, next) then Verdict(rules[0], e)
    else Decide(e, next, rules[1..])
  }

  /** `DecideRoute`: invalid envelopes and an empty next node are denied. */
  ghost function Route(e: Envelope, next: string, rules: seq<Rule>): Decision {
    if !ValidEnvelope(e) || CleanTopicPart(next) == "" then Decision(false, e.topic)
    else Decide(e, CleanTopicPart(next), rules)
  }

  ghost function ForwardWithRules(prefix: string, e: Envelope, next: string,
                                  rules: seq<Rule>): Result<Envelope, MeshError> {
    if !ValidEnvelope(e) then Err(InvalidEnvelope)
    else
      var d := Route(e, next, rules);
      if !d.allowed then Err(Denied)
      else
        var f := ForwardTo(e, prefix, next);
        if f.Err? || d.topic == "" || d.topic == e.topic then f
        else if !ValidPublish(d.topic) then Err(BadTopic)
        else Ok(f.value.(topic := d.topic))
  }

  method RuleMatchesNow(r: Rule, e: Envelope, next: string) returns (m: bool)
    ensures m <==> RuleMatches(r, e, next)
  {
    hide Matches, CleanTopicPart, TrimSpace;
    if !Blank(r.originNode) && CleanTopicPart(r.originNode) != e.originNodeID { return false; }
    if !Blank(r.fromNode) && CleanTopicPart(r.fromNode) != e.nodeID { return false; }
    if !Blank(r.toNode) && CleanTopicPart(r.toNode) != next { return false; }
    if Blank(r.topicFilter) { return false; }
    m := TopicMatches(TrimSpace(r.topicFilter), e.topic);
  }

  /** The rule scan as a loop: the first match wins. */
  method DecideRoute(e: Envelope, next: string, rules: seq<Rule>) returns (d: Decision, valid: bool)
    ensures d == Route(e, next, rules) && valid == ValidEnvelope(e)
  {
    hide ValidEnvelope, RuleMatches, CleanTopicPart;
    if !ValidEnvelope(e) { return Decision(false, e.topic), false; }
    var node := CleanTopicPart(next);
    if node == "" { return Decision(false, e.topic), true; }
    for i := 0 to |rules|
      invariant Decide(e, node, rules[i..]) == Decide(e, node, rules)
    {
      var m := RuleMatchesNow(rules[i], e, node);
      assert rules[i..][1..] == rules[i + 1..];
      if m { return Verdict(rules[i], e), true; }
    }
    return Decision(false, e.topic), true;
  }

  /** Rule `i` is the first that matches. */
  ghost predicate FirstMatch(e: Envelope, next: string, rules: seq<Rule>, i: int) {
    && 0 <= i < |rules| && RuleMatches(rules[i], e, next)
    && forall j :: 0 <= j < i ==> !RuleMatches(rules[j], e, next)
  }

  lemma {:induction false} DecidedByFirst(e: Envelope, next: string, rules: seq<Rule>)
    ensures if exists i :: FirstMatch(e, next, rules, i)
            then forall i :: FirstMatch(e, next, rules, i) ==> Decide(e, next, rules) == Verdict(rules[i], e)
            else Decide(e, next, rules) == Decision(false, e.topic)
  {
    hide RuleMatches, Verdict;
    if rules != [] {
      var rest := rules[1..];
      DecidedByFirst(e, next, rest);
      if RuleMatches(rules[0], e, next) {
        assert FirstMatch(e, next, rules, 0);
      } else {
        forall i ensures FirstMatch(e, next, rest, i) <==> FirstMatch(e, next, rules, i + 1) {
          LaterMatch(e, next, rules, i);
        }
        forall i | FirstMatch(e, next, rules, i) ensures Decide(e, next, rules) == Verdict(rules[i], e) {
          assert FirstMatch(e, next, rest, i - 1) && rest[i - 1] == rules[i];
        }
      }
    }
  }

  lemma LaterMatch(e: Envelope, next: string, rules: seq<Rule>, i: int)
    requires rules != [] && !RuleMatches(rules[0], e, next)
    ensures FirstMatch(e, next, rules[1..], i) <==> FirstMatch(e, next, rules, i + 1)
  {
    hide RuleMatches;
    var rest := rules[1..];
    if FirstMatch(e, next, rest, i) {
      forall j | 0 <= j < i + 1 ensures !RuleMatches(rules[j], e, next) {
        if j > 0 { assert rules[j] == rest[j - 1]; }
      }
    }
    if FirstMatch(e, next, rules, i + 1) {
      forall j | 0 <= j < i ensures !RuleMatches(rest[j], e, next) { assert rest[j] == rules[j + 1]; }
    }
  }

  /** The rule lets a message through: as it is, or under another topic that is not blank. */
  ghost predicate Passes(r: Rule) {
    r.action == Allow || (r.action == Rewrite && TrimSpace(r.rewriteTopic) != "")
  }

  /** A forward is allowed exactly when a rule matches and the first one that does lets it through: a deny in front of
      any allow wins.  The topic changes only by that rule's rewriting. */
  lemma RouteExactly(e: Envelope, next: string, rules: seq<Rule>)
    ensures Route(e, next, rules).allowed
       <==> ValidEnvelope(e) && CleanTopicPart(next) != ""
            && exists i :: FirstMatch(e, CleanTopicPart(next), rules, i) && Passes(rules[i])
    ensures !Route(e, next, rules).allowed ==> Route(e, next, rules).topic == e.topic
    ensures forall i :: FirstMatch(e, CleanTopicPart(next), rules, i) && Route(e, next, rules).allowed ==>
              Route(e, next, rules).topic
              == if rules[i].action == Rewrite then TrimSpace(rules[i].rewriteTopic) else e.topic
  {
    hide RuleMatches, ValidEnvelope, CleanTopicPart, TrimSpace;
    DecidedByFirst(e, CleanTopicPart(next), rules);
  }

  /** An event with all its fields, field by field. */
  ghost predicate Complete(v: Event) {
    && v.version == "weaverssh.pubsub.v1"
    && "" !in {TrimSpace(v.eventType), TrimSpace(v.component), TrimSpace(v.id), TrimSpace(v.at)}
    && LowerTrim(v.origin) in {"", "internal", "external", "pubsub"}
  }

  /** An envelope that may be forwarded. */
  ghost predicate Sendable(e: Envelope) {
    && e.version == "weaverssh.pubsub.mesh.v1" && Complete(e.event)
    && "" !in {TrimSpace(e.chainID), TrimSpace(e.nodeID), TrimSpace(e.originNodeID)}
    && 0 <= e.hop <= e.maxHops && 0 < e.maxHops && e.nodeID in e.path && ValidPublish(e.topic)
  }

  lemma SendableExactly(e: Envelope)
    ensures ValidEnvelope(e) <==> Sendable(e)
  {
    hide TrimSpace, ValidPublish;
  }

  /** One hop is made exactly when the envelope is sendable, has a hop left, and the next node is named, was not visited
      and has a topic.  It adds that node to the path and counts one hop, and no other field but the topic changes. */
  lemma ForwardExactly(e: Envelope, prefix: string, next: string)
    ensures var n := CleanTopicPart(next);
            var topic := NodeEventTopic(prefix, e.chainID, n, e.event.component, e.event.eventType);
            && (ForwardTo(e, prefix, next).Ok?
                <==> Sendable(e) && n != "" && n !in e.path && e.hop < e.maxHops && topic.Some?)
            && (ForwardTo(e, prefix, next).Ok? ==>
                  ForwardTo(e, prefix, next).value
                  == Envelope(e.version, e.chainID, n, e.originNodeID, e.hop + 1, e.maxHops, e.path + [n], topic.value,
                              e.event))
  {
    hide Sendable, ValidEnvelope, CleanTopicPart, NodeEventTopic;
    SendableExactly(e);
  }

  /** With a rule list, exactly when the rules let it through as well, and the topic they rewrite to may be published.
      */
  lemma ForwardWithRulesExactly(e: Envelope, prefix: string, next: string, rules: seq<Rule>)
    ensures var d, f := Route(e, next, rules), ForwardTo(e, prefix, next);
            var kept := d.topic == "" || d.topic == e.topic;
            && (ForwardWithRules(prefix, e, next, rules).Ok? <==> d.allowed && f.Ok? && (kept || ValidPublish(d.topic)))
            && (ForwardWithRules(prefix, e, next, rules).Ok? ==>
                  ForwardWithRules(prefix, e, next, rules).value
                  == if kept then f.value else f.value.(topic := d.topic))
  {
    hide ValidEnvelope, CleanTopicPart, NodeEventTopic, Decide, ValidPublish;
  }

  lemma NamedNode(prefix: string, chainID: string, nodeID: string, component: string, eventType: string)
    requires NodeEventTopic(prefix, chainID, nodeID, component, eventType).Some?
    ensures !Blank(CleanTopicPart(chainID)) && !Blank(CleanTopicPart(nodeID))
    ensures ValidPublish(NodeEventTopic(prefix, chainID, nodeID, component, eventType).value)
  {
    hide CleanTopicPart, TrimSpace, ValidPublish, Prefix;
    var c, n := CleanTopicPart(chainID), CleanTopicPart(nodeID);
    var k, e := CleanTopicPart(component), CleanTopicPart(eventType);
    var topic := NodeEventTopic(prefix, chainID, nodeID, component, eventType).value;
    var front, back := Prefix(prefix) + "/chains", k + "/" + e;
    assert topic == front + ("/" + c + "/") + ("nodes/" + n + "/" + back);
    InnerLevel(front, c, "nodes/" + n + "/" + back);
    assert topic == (front + "/" + c + "/nodes") + ("/" + n + "/") + back;
    InnerLevel(front + "/" + c + "/nodes", n, back);
  }

  /** Validation never refuses what forwarding made: a new envelope and every forwarded one can be sent. */
  lemma ForwardedIsSendable(e: Envelope, prefix: string, next: string, rules: seq<Rule>)
    requires ForwardWithRules(prefix, e, next, rules).Ok?
    ensures Sendable(ForwardWithRules(prefix, e, next, rules).value)
  {
    hide CleanTopicPart, TrimSpace, NodeEventTopic, ValidPublish, Route;
    ForwardExactly(e, prefix, next);
    ForwardWithRulesExactly(e, prefix, next, rules);
    var n := CleanTopicPart(next);
    NamedNode(prefix, e.chainID, n, e.event.component, e.event.eventType);
    CleanNotBlank(n);
  }

  lemma CleanNotBlank(n: string)
    requires !Blank(CleanTopicPart(n))
    ensures !Blank(n)
  {
    if Blank(n) { assert ReplaceChar("", ' ', '-') == ""; TrimSpaceTrimmed(""); }
  }

  lemma NewIsSendable(prefix: string, chainID: string, nodeID: string, event: Event, maxHops: int)
    requires NewMeshEnvelope(prefix, chainID, nodeID, event, maxHops).Ok?
    ensures Sendable(NewMeshEnvelope(prefix, chainID, nodeID, event, maxHops).value)
  {
    hide CleanTopicPart, TrimSpace, NodeEventTopic, ValidPublish;
    var c, n := CleanTopicPart(chainID), CleanTopicPart(nodeID);
    NamedNode(prefix, c, n, event.component, event.eventType);
    CleanNotBlank(c);
    CleanNotBlank(n);
    SendableExactly(NewMeshEnvelope(prefix, chainID, nodeID, event, maxHops).value);
  }

  // ---------------------------------------------------------------------------------------------
  // Generated rules

  function AllowRule(id: string, origin: string, from: string, to: string, filter: string): Rule {
    Rule(id + "-" + from + "-to-" + to, Allow, origin, from, to, filter, "")
  }

  function Cleaned(nodes: seq<string>): seq<string> {
    seq(|nodes|, i requires 0 <= i < |nodes| => CleanTopicPart(nodes[i]))
  }

  /** `cleanNodeList` accepts: at least two nodes with distinct, nonempty clean names. */
  ghost predicate NodesOk(nodes: seq<string>) {
    && |nodes| >= 2 && (forall i :: 0 <= i < |nodes| ==> CleanTopicPart(nodes[i]) != "")
    && forall i, j :: 0 <= i < j < |nodes| ==> CleanTopicPart(nodes[i]) != CleanTopicPart(nodes[j])
  }

  method CleanNodeList(nodes: seq<string>) returns (r: Option<seq<string>>)
    ensures r.Some? <==> NodesOk(nodes)
    ensures r.Some? ==> r.value == Cleaned(nodes)
  {
    hide CleanTopicPart;
    if |nodes| < 2 { return None; }
    var out: seq<string> := [];
    var seen: set<string> := {};
    for i := 0 to |nodes|
      invariant out == Cleaned(nodes)[..i] && seen == set x | x in out
      invariant forall j :: 0 <= j < i ==> CleanTopicPart(nodes[j]) != ""
      invariant forall j, k :: 0 <= j < k < i ==> CleanTopicPart(nodes[j]) != CleanTopicPart(nodes[k])
    {
      var node := CleanTopicPart(nodes[i]);
      if node == "" { return None; }
      if node in seen {
        var j :| 0 <= j < i && out[j] == node;
        assert CleanTopicPart(nodes[j]) == CleanTopicPart(nodes[i]);
        return None;
      }
      forall j | 0 <= j < i ensures CleanTopicPart(nodes[j]) != node {
        assert out[j] in out;
      }
      seen := seen + {node};
      out := out + [node];
    }
    return Some(out);
  }

  /** The rules of a scheme over clean nodes: forward links with a fixed origin, or both directions of every link. */
  function Rules(scheme: Scheme, nodes: seq<string>, filter: string): seq<Rule> {
    if |nodes| < 2 then []
    else
      var n := |nodes| - 2;
      var before := Rules(scheme, nodes[..n + 1], filter);
      if scheme == ManyToMany then
        before + [AllowRule("many-to-many", "", nodes[n], nodes[n + 1], filter)]
               + [AllowRule("many-to-many", "", nodes[n + 1], nodes[n], filter)]
      else
        before + [AllowRule(if scheme == OneOne then "one-one" else "one-many",
                            nodes[0], nodes[n], nodes[n + 1], filter)]
  }

  method ChainRulesForScheme(prefix: string, chainID: string, nodes: seq<string>, scheme: Scheme)
    returns (r: Result<seq<Rule>, MeshError>)
    ensures r.Ok? <==> NodesOk(nodes) && ChainSubscribeFilter(prefix, chainID).Some?
    ensures r.Ok? ==> r.value == Rules(scheme, Cleaned(nodes), ChainSubscribeFilter(prefix, chainID).value)
    ensures r.Err? ==> r.error == if NodesOk(nodes) then BadTopic else BadNodes
  {
    hide NodesOk, ChainSubscribeFilter, Cleaned, AllowRule;
    var clean := CleanNodeList(nodes);
    if clean.None? { return Err(BadNodes); }
    var filter := ChainSubscribeFilter(prefix, chainID);
    if filter.None? { return Err(BadTopic); }
    var ns := clean.value;
    var rules: seq<Rule> := [];
    TwoNodes(nodes);
    for i := 0 to |ns| - 1
      invariant rules == Rules(scheme, ns[..i + 1], filter.value)
    {
      assert ns[..i + 2][..i + 1] == ns[..i + 1];
      if scheme == ManyToMany {
        rules := rules + [AllowRule("many-to-many", "", ns[i], ns[i + 1], filter.value)];
        rules := rules + [AllowRule("many-to-many", "", ns[i + 1], ns[i], filter.value)];
      } else {
        rules := rules + [AllowRule(if scheme == OneOne then "one-one" else "one-many",
                                    ns[0], ns[i], ns[i + 1], filter.value)];
      }
    }
    assert ns[..|ns|] == ns;
    return Ok(rules);
  }

  lemma TwoNodes(nodes: seq<string>)
    requires NodesOk(nodes)
    ensures |Cleaned(nodes)| >= 2
  {}

  /** A rule of the scheme is an allow rule over one link of the chain. */
  ghost predicate LinkRule(r: Rule, scheme: Scheme, nodes: seq<string>, filter: string, i: nat, up: bool) {
    && i + 1 < |nodes| && r.action == Allow && r.topicFilter == filter
    && r.fromNode == nodes[if up then i else i + 1] && r.toNode == nodes[if up then i + 1 else i]
    && (if scheme == ManyToMany then r.originNode == "" else up && r.originNode == nodes[0])
  }

  lemma {:induction false} RulesAreLinks(scheme: Scheme, nodes: seq<string>, filter: string, k: nat)
    requires k < |Rules(scheme, nodes, filter)|
    ensures exists i, up :: LinkRule(Rules(scheme, nodes, filter)[k], scheme, nodes, filter, i, up)
  {
    var n := |nodes| - 2;
    var rules, before := Rules(scheme, nodes, filter), Rules(scheme, nodes[..n + 1], filter);
    if k < |before| {
      RulesAreLinks(scheme, nodes[..n + 1], filter, k);
      var i, up :| LinkRule(before[k], scheme, nodes[..n + 1], filter, i, up);
      assert LinkRule(rules[k], scheme, nodes, filter, i, up);
    } else {
      assert LinkRule(rules[k], scheme, nodes, filter, n, k == |before|);
    }
  }

  lemma {:induction false} LinksAreRules(scheme: Scheme, nodes: seq<string>, filter: string, i: nat, up: bool)
    requires i + 1 < |nodes| && (scheme == ManyToMany || up)
    ensures exists k :: 0 <= k < |Rules(scheme, nodes, filter)|
                        && LinkRule(Rules(scheme, nodes, filter)[k], scheme, nodes, filter, i, up)
  {
    var n := |nodes| - 2;
    var rules, before := Rules(scheme, nodes, filter), Rules(scheme, nodes[..n + 1], filter);
    if i < n {
      LinksAreRules(scheme, nodes[..n + 1], filter, i, up);
      var k :| 0 <= k < |before| && LinkRule(before[k], scheme, nodes[..n + 1], filter, i, up);
      assert LinkRule(rules[k], scheme, nodes, filter, i, up);
    } else {
      assert LinkRule(rules[if up then |before| else |before| + 1], scheme, nodes, filter, i, up);
    }
  }

  // ---------------------------------------------------------------------------------------------
  // One forward

  /** Names that cleaning leaves alone, nonempty and distinct. */
  ghost predicate StableNodes(nodes: seq<string>) {
    && |nodes| >= 2 && (forall i :: 0 <= i < |nodes| ==> nodes[i] != "" && CleanTopicPart(nodes[i]) == nodes[i])
    && forall i, j :: 0 <= i < j < |nodes| ==> nodes[i] != nodes[j]
  }

  lemma StableNotBlank(v: string)
    requires v != "" && CleanTopicPart(v) == v
    ensures !Blank(v)
  {
    CleanFixpointExact(v);
    TrimSpaceTrimmed(v);
  }

  /** A forward is allowed only over a link of the chain, in the direction and from the origin the scheme grants. */
  ghost predicate Linked(scheme: Scheme, nodes: seq<string>, e: Envelope, next: string, i: nat, up: bool) {
    && i + 1 < |nodes| && e.nodeID == nodes[if up then i else i + 1] && next == nodes[if up then i + 1 else i]
    && (scheme == ManyToMany || (up && e.originNodeID == nodes[0]))
  }

  lemma {:induction false} AllowedBySome(e: Envelope, next: string, rules: seq<Rule>)
    requires forall k :: 0 <= k < |rules| ==> rules[k].action == Allow
    ensures Decide(e, next, rules) == Decision(exists k :: 0 <= k < |rules| && RuleMatches(rules[k], e, next), e.topic)
  {
    hide RuleMatches;
    if rules != [] {
      var rest := rules[1..];
      AllowedBySome(e, next, rest);
      if RuleMatches(rules[0], e, next) {
      } else {
        assert forall k :: 0 <= k < |rest| ==> rest[k] == rules[k + 1];
        assert forall k :: 1 <= k < |rules| ==> rules[k] == rest[k - 1];
      }
    }
  }

  lemma LinkRuleMatches(r: Rule, scheme: Scheme, nodes: seq<string>, filter: string, i: nat, up: bool, e: Envelope,
                        next: string)
    requires StableNodes(nodes) && LinkRule(r, scheme, nodes, filter, i, up)
    ensures RuleMatches(r, e, next) ==>
              Linked(scheme, nodes, e, next, i, up) && Matches(SplitTopic(TrimSpace(filter)), SplitTopic(e.topic))
    ensures Linked(scheme, nodes, e, next, i, up) && !Blank(filter)
            && Matches(SplitTopic(TrimSpace(filter)), SplitTopic(e.topic)) ==>
              RuleMatches(r, e, next)
  {
    hide CleanTopicPart, Matches, TrimSpace;
    assert Blank("") by { TrimSpaceTrimmed(""); }
    StableNotBlank(nodes[0]);
    StableNotBlank(nodes[i]);
    StableNotBlank(nodes[i + 1]);
  }

  /** Under a scheme's rules a forward is allowed exactly over a link of the chain, for topics the filter matches. */
  lemma DecideExact(scheme: Scheme, nodes: seq<string>, filter: string, e: Envelope, next: string)
    requires StableNodes(nodes) && !Blank(filter)
    ensures var d := Decide(e, next, Rules(scheme, nodes, filter));
            && d.topic == e.topic
            && (d.allowed <==> && Matches(SplitTopic(TrimSpace(filter)), SplitTopic(e.topic))
                               && exists i, up :: Linked(scheme, nodes, e, next, i, up))
  {
    hide StableNodes, Matches, TrimSpace, RuleMatches, Linked;
    var rules := Rules(scheme, nodes, filter);
    forall k | 0 <= k < |rules| ensures rules[k].action == Allow { RulesAreLinks(scheme, nodes, filter, k); }
    AllowedBySome(e, next, rules);
    if k :| 0 <= k < |rules| && RuleMatches(rules[k], e, next) {
      RulesAreLinks(scheme, nodes, filter, k);
      var i, up :| LinkRule(rules[k], scheme, nodes, filter, i, up);
      LinkRuleMatches(rules[k], scheme, nodes, filter, i, up, e, next);
    }
    if Matches(SplitTopic(TrimSpace(filter)), SplitTopic(e.topic)) {
      if i, up :| Linked(scheme, nodes, e, next, i, up) {
        LinkedScheme(scheme, nodes, e, next, i, up);
        LinksAreRules(scheme, nodes, filter, i, up);
        var k :| 0 <= k < |rules| && LinkRule(rules[k], scheme, nodes, filter, i, up);
        LinkRuleMatches(rules[k], scheme, nodes, filter, i, up, e, next);
      }
    }
  }

  lemma LinkedScheme(scheme: Scheme, nodes: seq<string>, e: Envelope, next: string, i: nat, up: bool)
    requires Linked(scheme, nodes, e, next, i, up)
    ensures i + 1 < |nodes| && (scheme == ManyToMany || up)
  {}

  /** What an allowed forward does to an envelope. */
  lemma ForwardFacts(scheme: Scheme, nodes: seq<string>, filter: string, prefix: string, e: Envelope, next: string)
    requires StableNodes(nodes) && !Blank(filter)
    requires ForwardWithRules(prefix, e, next, Rules(scheme, nodes, filter)).Ok?
    ensures var f, n := ForwardWithRules(prefix, e, next, Rules(scheme, nodes, filter)).value, CleanTopicPart(next);
            && ForwardTo(e, prefix, next) == Ok(f)
            && f.path == e.path + [n] && n !in e.path && f.nodeID == n && f.hop == e.hop + 1 <= e.maxHops
            && f.originNodeID == e.originNodeID && f.maxHops == e.maxHops
            && exists i, up :: Linked(scheme, nodes, e, n, i, up)
  {
    hide StableNodes, CleanTopicPart, Linked, ValidEnvelope, NodeEventTopic, Blank;
    DecideExact(scheme, nodes, filter, e, CleanTopicPart(next));
  }

  // ---------------------------------------------------------------------------------------------
  // Runs of forwards

  /** Each envelope is the previous one forwarded under the rules, to any node and with any prefix. */
  ghost predicate IsRoute(rules: seq<Rule>, es: seq<Envelope>, prefixes: seq<string>, nexts: seq<string>) {
    && |es| == |nexts| + 1 == |prefixes| + 1
    && forall i :: 0 <= i < |nexts| ==> ForwardWithRules(prefixes[i], es[i], nexts[i], rules) == Ok(es[i + 1])
  }

  /** The path climbs the chain from position `s`. */
  ghost predicate Up(nodes: seq<string>, path: seq<string>, s: nat) {
    s + |path| <= |nodes| && path == nodes[s..s + |path|]
  }

  /** The path descends the chain from position `s`. */
  ghost predicate Down(nodes: seq<string>, path: seq<string>, s: nat) {
    s < |nodes| && |path| <= s + 1 && forall i :: 0 <= i < |path| ==> path[i] == nodes[s - i]
  }

  /** Hop counts are path lengths, and once forwarded the path is a segment of the chain in one direction: a prefix of
      the chain for the directed schemes. */
  ghost predicate OnSegment(scheme: Scheme, nodes: seq<string>, e: Envelope) {
    && e.path != [] && e.hop == |e.path| - 1 && e.nodeID == e.path[|e.path| - 1] && e.originNodeID == e.path[0]
    && (|e.path| > 1 ==>
          if scheme == ManyToMany then exists s :: Up(nodes, e.path, s) || Down(nodes, e.path, s)
          else Up(nodes, e.path, 0))
  }

  /** A hop against the direction of a segment of two or more nodes leads back into it. */
  lemma TurnLeadsBack(nodes: seq<string>, path: seq<string>, n: string, i: nat, up: bool, s: nat, climbing: bool)
    requires StableNodes(nodes) && |path| > 1 && i + 1 < |nodes| && climbing != up
    requires path[|path| - 1] == nodes[if up then i else i + 1] && n == nodes[if up then i + 1 else i]
    requires if climbing then Up(nodes, path, s) else Down(nodes, path, s)
    ensures n in path
  {
    hide CleanTopicPart, Blank;
    var m := |path| - 1;
    var last := if climbing then s + m else s - m;
    assert path[m] == nodes[last];
    IndexUnique(nodes, last, if up then i else i + 1);
    assert path[m - 1] == n;
  }

  /** One more hop from the end of a segment, never back into it, extends the segment. */
  lemma ExtendSegment(nodes: seq<string>, path: seq<string>, n: string, i: nat, up: bool, s: nat, climbing: bool)
    requires StableNodes(nodes) && path != [] && n !in path && i + 1 < |nodes|
    requires path[|path| - 1] == nodes[if up then i else i + 1] && n == nodes[if up then i + 1 else i]
    requires if climbing then Up(nodes, path, s) else Down(nodes, path, s)
    requires |path| > 1 || climbing == up
    ensures if climbing then Up(nodes, path + [n], s) else Down(nodes, path + [n], s)
  {
    hide StableNodes;
    if climbing != up {
      TurnLeadsBack(nodes, path, n, i, up, s, climbing);
    } else {
      var m := |path| - 1;
      assert path[m] == nodes[if climbing then s + m else s - m];
      IndexUnique(nodes, if climbing then s + m else s - m, if up then i else i + 1);
    }
  }

  lemma StepOnSegment(scheme: Scheme, nodes: seq<string>, filter: string, prefix: string, e: Envelope, next: string)
    requires StableNodes(nodes) && !Blank(filter) && OnSegment(scheme, nodes, e)
    requires ForwardWithRules(prefix, e, next, Rules(scheme, nodes, filter)).Ok?
    ensures OnSegment(scheme, nodes, ForwardWithRules(prefix, e, next, Rules(scheme, nodes, filter)).value)
  {
    hide StableNodes, CleanTopicPart, Blank, ForwardWithRules, ForwardTo, Rules;
    ForwardFacts(scheme, nodes, filter, prefix, e, next);
    var f, n := ForwardWithRules(prefix, e, next, Rules(scheme, nodes, filter)).value, CleanTopicPart(next);
    var i, up :| Linked(scheme, nodes, e, n, i, up);
    if |e.path| == 1 {
      assert e.path == [e.nodeID];
      if scheme == ManyToMany {
        var s := if up then i else i + 1;
        assert if up then Up(nodes, e.path, s) else Down(nodes, e.path, s);
        ExtendSegment(nodes, e.path, n, i, up, s, up);
      } else {
        IndexUnique(nodes, 0, i);
        assert Up(nodes, e.path, 0);
        ExtendSegment(nodes, e.path, n, i, true, 0, true);
      }
    } else if scheme == ManyToMany {
      var s :| Up(nodes, e.path, s) || Down(nodes, e.path, s);
      ExtendSegment(nodes, e.path, n, i, up, s, Up(nodes, e.path, s));
    } else {
      ExtendSegment(nodes, e.path, n, i, up, 0, true);
    }
  }

  lemma IndexUnique(nodes: seq<string>, i: nat, j: nat)
    requires StableNodes(nodes) && i < |nodes| && j < |nodes| && nodes[i] == nodes[j]
    ensures i == j
  {
    hide CleanTopicPart, Blank;
  }

  lemma StartOnSegment(scheme: Scheme, nodes: seq<string>, e: Envelope)
    requires e.hop == 0 && e.path == [e.nodeID] && e.originNodeID == e.nodeID
    ensures OnSegment(scheme, nodes, e)
  {}

  /** Every run of forwards of a new envelope visits a contiguous segment of the chain without ever turning back,
      starting at the chain's first node under the directed schemes, and counts its hops exactly. */
  lemma {:induction false} RouteIsSegment(scheme: Scheme, nodes: seq<string>, filter: string, es: seq<Envelope>,
                                          prefixes: seq<string>, nexts: seq<string>, k: nat)
    requires StableNodes(nodes) && !Blank(filter) && IsRoute(Rules(scheme, nodes, filter), es, prefixes, nexts)
    requires k < |es|
    requires es[0].hop == 0 && es[0].path == [es[0].nodeID] && es[0].originNodeID == es[0].nodeID
    ensures OnSegment(scheme, nodes, es[k]) && |es[k].path| == k + 1
  {
    hide StableNodes, ForwardWithRules, Blank, Rules, OnSegment, Linked, CleanTopicPart, ForwardTo;
    if k == 0 {
      StartOnSegment(scheme, nodes, es[0]);
    } else {
      RouteIsSegment(scheme, nodes, filter, es, prefixes, nexts, k - 1);
      var i := k - 1;
      assert ForwardWithRules(prefixes[i], es[i], nexts[i], Rules(scheme, nodes, filter)) == Ok(es[i + 1]);
      StepOnSegment(scheme, nodes, filter, prefixes[k - 1], es[k - 1], nexts[k - 1]);
      ForwardFacts(scheme, nodes, filter, prefixes[k - 1], es[k - 1], nexts[k - 1]);
    }
  }

  /** An envelope is made exactly when its event is complete and chain and node have a topic for it; only the origin is
      visited yet, and a missing hop limit is 16. */
  lemma NewEnvelopeStarts(prefix: string, chainID: string, nodeID: string, event: Event, maxHops: int)
    ensures var c, n := CleanTopicPart(chainID), CleanTopicPart(nodeID);
            var topic := NodeEventTopic(prefix, c, n, event.component, event.eventType);
            var made := NewMeshEnvelope(prefix, chainID, nodeID, event, maxHops);
            && (made.Ok? <==> c != "" && n != "" && Complete(event) && topic.Some?)
            && (made.Ok? ==>
                  && made.value == Envelope("weaverssh.pubsub.mesh.v1", c, n, n, 0, made.value.maxHops, [n],
                                            topic.value, event)
                  && made.value.maxHops == if maxHops > 0 then maxHops else 16)
  {
    hide CleanTopicPart, TrimSpace, NodeEventTopic;
  }

  // ---------------------------------------------------------------------------------------------
  // Reaching the end of the chain

  /** The position `k` hops from `start`, up or down the chain. */
  function Stop(start: nat, k: nat, up: bool): int { if up then start + k else start - k }

  /** The envelope of a chain's event, after it travelled `k` hops from node `start` in one direction. */
  ghost predicate Arrived(e: Envelope, prefix: string, nodes: seq<string>, start: nat, k: nat, up: bool) {
    && start < |nodes| && 0 <= Stop(start, k, up) < |nodes|
    && ValidEnvelope(e) && CleanTopicPart(e.chainID) == e.chainID
    && |e.path| == k + 1 && (forall i :: 0 <= i <= k ==> e.path[i] == nodes[Stop(start, i, up)])
    && e.hop == k && e.nodeID == nodes[Stop(start, k, up)] && e.originNodeID == nodes[start]
    && TopicAt(prefix, e, nodes[Stop(start, k, up)]) == Some(e.topic)
  }

  /** The topic of an envelope's event at a node. */
  function TopicAt(prefix: string, e: Envelope, node: string): Option<string> {
    NodeEventTopic(prefix, e.chainID, node, e.event.component, e.event.eventType)
  }

  /** Which journeys a scheme grants: any under many-to-many, else the climb from the chain's first node. */
  predicate Granted(scheme: Scheme, start: nat, up: bool) { scheme == ManyToMany || (up && start == 0) }

  function ChainFilter(prefix: string, chain: string): string { Base(prefix, chain) + "/#" }

  lemma FilterStable(prefix: string, chain: string)
    requires Trimmed(Prefix(prefix), IsSpace)
    ensures TrimSpace(ChainFilter(prefix, chain)) == ChainFilter(prefix, chain) && !Blank(ChainFilter(prefix, chain))
  {
    hide CleanTopicPart, TrimSpace;
    var filter := ChainFilter(prefix, chain);
    assert Prefix(prefix) != "";
    assert filter[0] == Prefix(prefix)[0] && filter[|filter| - 1] == '#' && !IsSpace('#');
    TrimSpaceTrimmed(filter);
  }

  /** Wherever a journey started and whichever way it goes, the next node that way is reached exactly when the scheme
      grants the journey, the hop limit allows one more hop and the next node's topic is publishable; the envelope then
      has arrived there. */
  lemma NextNodeReached(scheme: Scheme, nodes: seq<string>, prefix: string, e: Envelope, start: nat, k: nat, up: bool)
    requires StableNodes(nodes) && Trimmed(Prefix(prefix), IsSpace) && Arrived(e, prefix, nodes, start, k, up)
    requires 0 <= Stop(start, k + 1, up) < |nodes|
    ensures var next := nodes[Stop(start, k + 1, up)];
            var r := ForwardWithRules(prefix, e, next, Rules(scheme, nodes, ChainFilter(prefix, e.chainID)));
            && (r.Ok? <==> Granted(scheme, start, up) && k < e.maxHops && TopicAt(prefix, e, next).Some?)
            && (r.Ok? ==> Arrived(r.value, prefix, nodes, start, k + 1, up) && r.value.maxHops == e.maxHops
                          && r.value.event == e.event && r.value.chainID == e.chainID)
            && (!Granted(scheme, start, up) ==> r == Err(Denied))
            && (Granted(scheme, start, up) && k == e.maxHops ==> r == Err(MaxHops))
  {
    hide Matches, TrimSpace, NodeEventTopic, Rules, CleanTopicPart, ValidEvent, ValidPublish, Base, Linked, Arrived,
         Decide, Blank, StableNodes;
    var filter := ChainFilter(prefix, e.chainID);
    var next := nodes[Stop(start, k + 1, up)];
    ArrivedFacts(e, prefix, nodes, start, k, up);
    FilterStable(prefix, e.chainID);
    FilterMatchesEvents(prefix, e.chainID, e.nodeID, e.event.component, e.event.eventType);
    LinkedExactly(scheme, nodes, e, next, prefix, start, k, up);
    DecideExact(scheme, nodes, filter, e, next);
    StableNotBlank(next);
    PublishableTopic(prefix, e.chainID, next, e.event.component, e.event.eventType);
    if TopicAt(prefix, e, next).Some? && k < e.maxHops { OneHopOn(e, prefix, nodes, start, k, up); }
  }

  /** What is needed of an envelope under way. */
  lemma ArrivedFacts(e: Envelope, prefix: string, nodes: seq<string>, start: nat, k: nat, up: bool)
    requires StableNodes(nodes) && Arrived(e, prefix, nodes, start, k, up) && 0 <= Stop(start, k + 1, up) < |nodes|
    ensures var next := nodes[Stop(start, k + 1, up)];
            && next !in e.path && next != "" && CleanTopicPart(next) == next && ValidEnvelope(e) && e.hop == k
            && CleanTopicPart(e.chainID) == e.chainID && TopicAt(prefix, e, e.nodeID) == Some(e.topic)
  {
    hide CleanTopicPart, NodeEventTopic, ValidEvent, ValidPublish, Blank;
  }

  /** The next node that way is linked exactly when the scheme grants the journey. */
  lemma LinkedExactly(scheme: Scheme, nodes: seq<string>, e: Envelope, next: string, prefix: string, start: nat, k: nat,
                      up: bool)
    requires StableNodes(nodes) && Arrived(e, prefix, nodes, start, k, up)
    requires 0 <= Stop(start, k + 1, up) < |nodes| && next == nodes[Stop(start, k + 1, up)]
    ensures (exists i, u :: Linked(scheme, nodes, e, next, i, u)) <==> Granted(scheme, start, up)
  {
    hide CleanTopicPart, NodeEventTopic, ValidEnvelope, Blank;
    var p := Stop(start, k, up);
    if Granted(scheme, start, up) {
      assert Linked(scheme, nodes, e, next, if up then p else p - 1, up);
    }
    if i: nat, u: bool :| Linked(scheme, nodes, e, next, i, u) {
      IndexUnique(nodes, p, if u then i else i + 1);
      IndexUnique(nodes, Stop(start, k + 1, up), if u then i + 1 else i);
      if scheme != ManyToMany { IndexUnique(nodes, start, 0); }
    }
  }

  /** An envelope forwarded to the next node has arrived there. */
  lemma OneHopOn(e: Envelope, prefix: string, nodes: seq<string>, start: nat, k: nat, up: bool)
    requires StableNodes(nodes) && Arrived(e, prefix, nodes, start, k, up) && 0 <= Stop(start, k + 1, up) < |nodes|
    requires k < e.maxHops && TopicAt(prefix, e, nodes[Stop(start, k + 1, up)]).Some?
    ensures var next := nodes[Stop(start, k + 1, up)];
            var topic := TopicAt(prefix, e, next).value;
            Arrived(e.(nodeID := next, hop := e.hop + 1, path := e.path + [next], topic := topic),
                    prefix, nodes, start, k + 1, up)
  {
    hide CleanTopicPart, NodeEventTopic, ValidEvent, ValidPublish, Blank;
    var next := nodes[Stop(start, k + 1, up)];
    StableNotBlank(next);
    PublishableTopic(prefix, e.chainID, next, e.event.component, e.event.eventType);
  }

  lemma PublishableTopic(prefix: string, chain: string, node: string, component: string, eventType: string)
    ensures var t := NodeEventTopic(prefix, chain, node, component, eventType); t.Some? ==> ValidPublish(t.value)
  {
    hide ValidPublish, CleanTopicPart;
  }

  /** Forwards the envelope `k` times along the chain, up or down from node `start`. */
  ghost function Relay(prefix: string, e: Envelope, nodes: seq<string>, rules: seq<Rule>, start: nat, k: nat,
                       up: bool): Result<Envelope, MeshError>
    requires start < |nodes| && 0 <= Stop(start, k, up) < |nodes|
  {
    if k == 0 then Ok(e)
    else
      var r := Relay(prefix, e, nodes, rules, start, k - 1, up);
      if r.Err? then r else ForwardWithRules(prefix, r.value, nodes[Stop(start, k, up)], rules)
  }

  lemma NewEnvelopeArrived(prefix: string, chainID: string, nodes: seq<string>, start: nat, up: bool, event: Event,
                           maxHops: int)
    requires StableNodes(nodes) && CleanTopicPart(CleanTopicPart(chainID)) == CleanTopicPart(chainID)
    requires start < |nodes| && NewMeshEnvelope(prefix, chainID, nodes[start], event, maxHops).Ok?
    ensures Arrived(NewMeshEnvelope(prefix, chainID, nodes[start], event, maxHops).value, prefix, nodes, start, 0, up)
  {
    hide CleanTopicPart, ValidEvent, NodeEventTopic, ValidPublish, Blank;
    StableNotBlank(nodes[start]);
    StableNotBlank(CleanTopicPart(chainID));
    PublishableTopic(prefix, CleanTopicPart(chainID), nodes[start], event.component, event.eventType);
  }

  /** An event published at any node reaches every node on a journey that the scheme grants, up to either end of the
      chain or the hop limit, as long as the nodes' topics are publishable: from the first node under every scheme, and
      from every node in both directions under many-to-many. */
  lemma {:induction false} EventReachesChain(scheme: Scheme, nodes: seq<string>, prefix: string, chainID: string,
                                             event: Event, maxHops: int, start: nat, k: nat, up: bool)
    requires StableNodes(nodes) && Trimmed(Prefix(prefix), IsSpace) && Granted(scheme, start, up)
    requires CleanTopicPart(CleanTopicPart(chainID)) == CleanTopicPart(chainID)
    requires start < |nodes| && 0 <= Stop(start, k, up) < |nodes|
    requires NewMeshEnvelope(prefix, chainID, nodes[start], event, maxHops).Ok?
    requires k <= NewMeshEnvelope(prefix, chainID, nodes[start], event, maxHops).value.maxHops
    requires forall j :: 1 <= j <= k ==>
               TopicAt(prefix, NewMeshEnvelope(prefix, chainID, nodes[start], event, maxHops).value,
                       nodes[Stop(start, j, up)]).Some?
    ensures var e := NewMeshEnvelope(prefix, chainID, nodes[start], event, maxHops).value;
            var r := Relay(prefix, e, nodes, Rules(scheme, nodes, ChainFilter(prefix, e.chainID)), start, k, up);
            && r.Ok? && Arrived(r.value, prefix, nodes, start, k, up) && r.value.maxHops == e.maxHops
            && r.value.event == e.event && r.value.chainID == e.chainID
  {
    hide StableNodes, CleanTopicPart, NodeEventTopic, ForwardWithRules, Arrived, Rules,
         Blank, ValidEvent, Trimmed, ChainFilter, NewMeshEnvelope, Granted;
    var e := NewMeshEnvelope(prefix, chainID, nodes[start], event, maxHops).value;
    if k == 0 {
      NewEnvelopeArrived(prefix, chainID, nodes, start, up, event, maxHops);
    } else {
      EventReachesChain(scheme, nodes, prefix, chainID, event, maxHops, start, k - 1, up);
      var rules := Rules(scheme, nodes, ChainFilter(prefix, e.chainID));
      var before := Relay(prefix, e, nodes, rules, start, k - 1, up).value;
      NextNodeReached(scheme, nodes, prefix, before, start, k - 1, up);
    }
  }

  // ---------------------------------------------------------------------------------------------
  // Why the names must be stable

  /** What rules made from arbitrary names allow: the names are cleaned once more, and a blank one matches anything. */
  ghost predicate Reaches(scheme: Scheme, nodes: seq<string>, e: Envelope, next: string, i: nat, up: bool) {
    && i + 1 < |nodes| && Selects(nodes[if up then i else i + 1], e.nodeID)
    && Selects(nodes[if up then i + 1 else i], next)
    && (scheme == ManyToMany || (up && Selects(nodes[0], e.originNodeID)))
  }

  predicate Selects(name: string, node: string) { Blank(name) || CleanTopicPart(name) == node }

  /** For every list of names, an envelope whose topic the filter matches is allowed exactly over the links of the chain
      of names cleaned once more. */
  lemma DecideEveryName(scheme: Scheme, nodes: seq<string>, filter: string, e: Envelope, next: string)
    requires !Blank(filter) && Matches(SplitTopic(TrimSpace(filter)), SplitTopic(e.topic))
    ensures Decide(e, next, Rules(scheme, nodes, filter)).allowed
       <==> exists i, up :: Reaches(scheme, nodes, e, next, i, up)
  {
    hide Matches, TrimSpace, RuleMatches, Reaches;
    var rules := Rules(scheme, nodes, filter);
    forall k | 0 <= k < |rules| ensures rules[k].action == Allow { RulesAreLinks(scheme, nodes, filter, k); }
    AllowedBySome(e, next, rules);
    if k :| 0 <= k < |rules| && RuleMatches(rules[k], e, next) {
      RulesAreLinks(scheme, nodes, filter, k);
      var i, up :| LinkRule(rules[k], scheme, nodes, filter, i, up);
      ReachesExact(rules[k], scheme, nodes, filter, i, up, e, next);
    }
    if i, up :| Reaches(scheme, nodes, e, next, i, up) {
      ReachesScheme(scheme, nodes, e, next, i, up);
      LinksAreRules(scheme, nodes, filter, i, up);
      var k :| 0 <= k < |rules| && LinkRule(rules[k], scheme, nodes, filter, i, up);
      ReachesExact(rules[k], scheme, nodes, filter, i, up, e, next);
    }
  }

  lemma ReachesScheme(scheme: Scheme, nodes: seq<string>, e: Envelope, next: string, i: nat, up: bool)
    requires Reaches(scheme, nodes, e, next, i, up)
    ensures i + 1 < |nodes| && (scheme == ManyToMany || up)
  {}

  lemma ReachesExact(r: Rule, scheme: Scheme, nodes: seq<string>, filter: string, i: nat, up: bool, e: Envelope,
                     next: string)
    requires LinkRule(r, scheme, nodes, filter, i, up) && !Blank(filter)
    requires Matches(SplitTopic(TrimSpace(filter)), SplitTopic(e.topic))
    ensures RuleMatches(r, e, next) <==> Reaches(scheme, nodes, e, next, i, up)
  {
    hide CleanTopicPart, Matches, TrimSpace;
    assert Blank("") by { TrimSpaceTrimmed(""); }
  }

  function At(e: Envelope, node: string, origin: string): Envelope { e.(nodeID := node, originNodeID := origin) }

  /** The rules decide the chain: wherever the envelope is and comes from, a forward is allowed exactly over a link. */
  ghost predicate DecidesChain(scheme: Scheme, nodes: seq<string>, filter: string, e: Envelope) {
    forall node, origin, next ::
      Decide(At(e, node, origin), next, Rules(scheme, nodes, filter)).allowed
      <==> exists i, up :: Linked(scheme, nodes, At(e, node, origin), next, i, up)
  }

  /** For names as `cleanNodeList` leaves them, the rules decide the chain exactly when cleaning changes none of the
      names again. */
  lemma StabilityExact(scheme: Scheme, raw: seq<string>, filter: string, e: Envelope)
    requires NodesOk(raw) && !Blank(filter) && Matches(SplitTopic(TrimSpace(filter)), SplitTopic(e.topic))
    ensures DecidesChain(scheme, Cleaned(raw), filter, e) <==> StableNodes(Cleaned(raw))
  {
    hide CleanTopicPart, Matches, TrimSpace, Rules, Decide, Linked, Reaches, StableNodes;
    var nodes := Cleaned(raw);
    if StableNodes(nodes) {
      forall node, origin, next
        ensures Decide(At(e, node, origin), next, Rules(scheme, nodes, filter)).allowed
           <==> exists i, up :: Linked(scheme, nodes, At(e, node, origin), next, i, up)
      {
        DecideExact(scheme, nodes, filter, At(e, node, origin), next);
      }
    } else {
      CleanedNames(raw);
      var node, origin, next := Misjudged(scheme, nodes, e);
      DecideEveryName(scheme, nodes, filter, At(e, node, origin), next);
    }
  }

  /** Distinct names without blanks, as cleaning once leaves them. */
  ghost predicate Names(nodes: seq<string>) {
    && |nodes| >= 2 && (forall i :: 0 <= i < |nodes| ==> nodes[i] != "" && ' ' !in nodes[i])
    && forall i, j :: 0 <= i < j < |nodes| ==> nodes[i] != nodes[j]
  }

  lemma CleanedNames(raw: seq<string>)
    requires NodesOk(raw)
    ensures Names(Cleaned(raw))
  {
    hide TrimSpace, TrimLeft, TrimRight, ReplaceChar;
    forall i | 0 <= i < |raw| ensures ' ' !in Cleaned(raw)[i] {
      var d := ReplaceChar(TrimSpace(raw[i]), ' ', '-');
      NoBlanks(TrimSpace(raw[i]));
      TrimSpec(d, IsSlash);
    }
  }

  /** Cleaning a name without blanks shortens it or leaves it alone. */
  lemma UnstableShrinks(v: string)
    requires ' ' !in v
    ensures CleanTopicPart(v) == v || |CleanTopicPart(v)| < |v|
  {
    hide TrimLeft, TrimRight;
    var t := TrimSpace(v);
    var d := ReplaceChar(t, ' ', '-');
    TrimShortens(v, IsSpace);
    TrimShortens(d, IsSlash);
    if |CleanTopicPart(v)| == |v| { assert t == v && d == v; }
  }

  /** A place where the rules misjudge a chain with an unstable name. */
  lemma Misjudged(scheme: Scheme, nodes: seq<string>, e: Envelope) returns (node: string, origin: string, next: string)
    requires Names(nodes) && !StableNodes(nodes)
    ensures (exists i, up :: Reaches(scheme, nodes, At(e, node, origin), next, i, up))
        !=  (exists i, up :: Linked(scheme, nodes, At(e, node, origin), next, i, up))
  {
    hide CleanTopicPart, Blank, Reaches, Linked;
    if b :| 0 <= b < |nodes| && Blank(nodes[b]) {
      node, origin, next := BlankOverreaches(scheme, nodes, b, e);
    } else {
      var k := LongestUnstable(nodes);
      node, origin, next := UnstableUnreached(scheme, nodes, k, e);
    }
  }

  /** A name longer than all others. */
  function Longer(nodes: seq<string>): string { if nodes == [] then "a" else Longer(nodes[1..]) + nodes[0] }

  lemma {:induction false} LongerIsNew(nodes: seq<string>)
    ensures Longer(nodes) != "" && forall i :: 0 <= i < |nodes| ==> |nodes[i]| < |Longer(nodes)|
  {
    if nodes != [] {
      LongerIsNew(nodes[1..]);
      assert forall i :: 1 <= i < |nodes| ==> nodes[i] == nodes[1..][i - 1];
    }
  }

  /** A blank name matches every node, also one that the chain does not have. */
  lemma BlankOverreaches(scheme: Scheme, nodes: seq<string>, b: nat, e: Envelope)
    returns (node: string, origin: string, next: string)
    requires b < |nodes| && |nodes| >= 2 && Blank(nodes[b])
    ensures exists i, up :: Reaches(scheme, nodes, At(e, node, origin), next, i, up)
    ensures !exists i, up :: Linked(scheme, nodes, At(e, node, origin), next, i, up)
  {
    hide CleanTopicPart, Blank;
    LongerIsNew(nodes);
    origin := CleanTopicPart(nodes[0]);
    if b + 1 < |nodes| {
      node, next := Longer(nodes), CleanTopicPart(nodes[b + 1]);
      assert Reaches(scheme, nodes, At(e, node, origin), next, b, true);
    } else {
      node, next := CleanTopicPart(nodes[b - 1]), Longer(nodes);
      assert Reaches(scheme, nodes, At(e, node, origin), next, b - 1, true);
    }
  }

  lemma {:induction false} LongestUnstable(nodes: seq<string>) returns (k: nat)
    requires exists i :: 0 <= i < |nodes| && CleanTopicPart(nodes[i]) != nodes[i]
    ensures k < |nodes| && CleanTopicPart(nodes[k]) != nodes[k]
    ensures forall i :: 0 <= i < |nodes| && CleanTopicPart(nodes[i]) != nodes[i] ==> |nodes[i]| <= |nodes[k]|
  {
    hide CleanTopicPart;
    var n := |nodes| - 1;
    if exists i :: 0 <= i < n && CleanTopicPart(nodes[..n][i]) != nodes[..n][i] {
      k := LongestUnstable(nodes[..n]);
      assert forall i :: 0 <= i < n ==> nodes[..n][i] == nodes[i];
      if CleanTopicPart(nodes[n]) != nodes[n] && |nodes[n]| > |nodes[k]| { k := n; }
    } else {
      assert forall i :: 0 <= i < n ==> nodes[..n][i] == nodes[i];
      k := n;
    }
  }

  /** No rule matches at or towards the longest unstable name. */
  lemma UnstableUnreached(scheme: Scheme, nodes: seq<string>, k: nat, e: Envelope)
    returns (node: string, origin: string, next: string)
    requires Names(nodes) && k < |nodes| && CleanTopicPart(nodes[k]) != nodes[k]
    requires forall i :: 0 <= i < |nodes| ==> !Blank(nodes[i])
    requires forall i :: 0 <= i < |nodes| && CleanTopicPart(nodes[i]) != nodes[i] ==> |nodes[i]| <= |nodes[k]|
    ensures exists i, up :: Linked(scheme, nodes, At(e, node, origin), next, i, up)
    ensures !exists i, up :: Reaches(scheme, nodes, At(e, node, origin), next, i, up)
  {
    hide CleanTopicPart, Blank;
    forall i | 0 <= i < |nodes| ensures CleanTopicPart(nodes[i]) != nodes[k] { UnstableShrinks(nodes[i]); }
    origin := nodes[0];
    if k + 1 < |nodes| {
      node, next := nodes[k], nodes[k + 1];
      assert Linked(scheme, nodes, At(e, node, origin), next, k, true);
    } else {
      node, next := nodes[k - 1], nodes[k];
      assert Linked(scheme, nodes, At(e, node, origin), next, k - 1, true);
    }
  }

  /** What goes wrong in a run: published under many-to-many rules for the raw names below, an event at the first node
      is forwarded straight to the third, past the second, whose rules were made for another name. */
  lemma UnstableNameSkipsNode(prefix: string, chainID: string, event: Event, maxHops: int)
    requires Trimmed(Prefix(prefix), IsSpace)
    requires CleanTopicPart(CleanTopicPart(chainID)) == CleanTopicPart(chainID)
    requires NewMeshEnvelope(prefix, chainID, "/\ta", event, maxHops).Ok?
    requires NodeEventTopic(prefix, CleanTopicPart(chainID), "b", event.component, event.eventType).Some?
    ensures var raw := ["/\ta", "/\t/\ta", "b"];
            var e := NewMeshEnvelope(prefix, chainID, raw[0], event, maxHops).value;
            var rules := Rules(ManyToMany, Cleaned(raw), ChainFilter(prefix, CleanTopicPart(chainID)));
            var r := ForwardWithRules(prefix, e, raw[2], rules);
            NodesOk(raw) && r.Ok? && r.value.path == [CleanTopicPart(raw[0]), CleanTopicPart(raw[2])]
  {
    SkippingNames();
    hide CleanTopicPart, Matches, TrimSpace, Rules, NodeEventTopic, ValidEvent, Decide, Base, RuleMatches, ValidPublish;
    var raw := ["/\ta", "/\t/\ta", "b"];
    var c := CleanTopicPart(chainID);
    var e := NewMeshEnvelope(prefix, chainID, raw[0], event, maxHops).value;
    var filter := ChainFilter(prefix, c);
    assert Cleaned(raw) == ["\ta", "\t/\ta", "b"];
    FilterStable(prefix, c);
    FilterMatchesEvents(prefix, c, e.nodeID, event.component, event.eventType);
    DecideEveryName(ManyToMany, Cleaned(raw), filter, e, "b");
    assert Reaches(ManyToMany, Cleaned(raw), e, "b", 1, true);
    SkippedTopic(e, "b", Rules(ManyToMany, Cleaned(raw), filter), ManyToMany, Cleaned(raw), filter);
    StableNotBlank(c);
    PublishableTopic(prefix, c, e.nodeID, event.component, event.eventType);
  }

  lemma SkippedTopic(e: Envelope, next: string, rules: seq<Rule>, scheme: Scheme, nodes: seq<string>, filter: string)
    requires rules == Rules(scheme, nodes, filter)
    ensures Decide(e, next, rules).topic == e.topic
  {
    hide RuleMatches, Rules;
    forall k | 0 <= k < |rules| ensures rules[k].action == Allow { RulesAreLinks(scheme, nodes, filter, k); }
    AllowedBySome(e, next, rules);
  }

  lemma SkippingNames()
    ensures CleanTopicPart("/\ta") == "\ta" && CleanTopicPart("/\t/\ta") == "\t/\ta" && CleanTopicPart("b") == "b"
    ensures CleanTopicPart("\t/\ta") == "\ta" && !Blank("\ta") && !Blank("\t/\ta") && !Blank("b")
  {
    CleanNotIdempotent();
    CleanFixpointExact("b");
    StableNotBlank("b");
    OnceCleaned();
  }

  lemma OnceCleaned()
    ensures CleanTopicPart("/\t/\ta") == "\t/\ta" && CleanTopicPart("\t/\ta") == "\ta"
    ensures !Blank("\ta") && !Blank("\t/\ta")
  {
    var s, t := "/\t/\ta", "\t/\ta";
    TrimSpaceTrimmed(s);
    assert ReplaceChar(s, ' ', '-') == s;
    assert TrimLeft(s, IsSlash) == t by { assert s[1..] == t; }
    assert TrimLeft(t, IsSpace) == "/\ta" by { assert t[1..] == "/\ta"; }
    assert ReplaceChar("/\ta", ' ', '-') == "/\ta";
    assert TrimLeft("/\ta", IsSlash) == "\ta" by { assert "/\ta"[1..] == "\ta"; }
    assert TrimLeft("\ta", IsSpace) == "a" by { assert "\ta"[1..] == "a"; }
  }
}
