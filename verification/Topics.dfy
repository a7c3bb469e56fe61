/** MQTT topics: splitting into levels, wildcard matching, validation, and the cleaning of topic parts. */
module Topics {
  import opened Results
  import opened Text

  const DEFAULT_PREFIX := "weaverssh"
  const MAX_TOPIC := 65535

  /** The levels after one more character. */
  function Extend(levels: seq<string>, c: char): (r: seq<string>)
    requires levels != []
    ensures r != []
  {
    var last := |levels| - 1;
    if c == '/' then levels + [""] else levels[..last] + [levels[last] + [c]]
  }

  /** `strings.Split(s, "/")`. */
  function Levels(s: string): (r: seq<string>)
    ensures r != []
  {
    if s == "" then [""] else Extend(Levels(s[..|s| - 1]), s[|s| - 1])
  }

  /** `splitTopic`: like splitting, but the empty topic has no level. */
  function SplitTopic(s: string): seq<string> { if s == "" then [] else Levels(s) }

  lemma NextLevels(topic: string, i: nat, parts: seq<string>, current: string)
    requires i < |topic| && Levels(topic[..i]) == parts + [current]
    ensures Levels(topic[..i + 1]) ==
              if topic[i] == '/' then parts + [current] + [""] else parts + [current + [topic[i]]]
  {
    assert topic[..i + 1][..i] == topic[..i];
    ExtendPrefix(parts, [current], topic[i]);
  }

  method SplitTopicLoop(topic: string) returns (parts: seq<string>)
    ensures parts == SplitTopic(topic)
  {
    hide Levels;
    if topic == "" { return []; }
    parts := [];
    var start := 0;
    assert Levels(topic[..0]) == [""] by { NoLevels(); }
    for i := 0 to |topic|
      invariant 0 <= start <= i
      invariant Levels(topic[..i]) == parts + [topic[start..i]]
    {
      NextLevels(topic, i, parts, topic[start..i]);
      if topic[i] == '/' {
        parts := parts + [topic[start..i]];
        start := i + 1;
        assert topic[start..i + 1] == "";
      } else {
        assert topic[start..i + 1] == topic[start..i] + [topic[i]];
      }
    }
    assert topic[..|topic|] == topic;
    parts := parts + [topic[start..]];
  }

  lemma NoLevels()
    ensures Levels("") == [""]
  {}

  lemma ExtendPrefix(p: seq<string>, q: seq<string>, c: char)
    requires q != []
    ensures Extend(p + q, c) == p + Extend(q, c)
  {
    var n := |p + q| - 1;
    assert (p + q)[..n] == p + q[..|q| - 1] && (p + q)[n] == q[|q| - 1];
  }

  /** Levels of texts joined by a slash are the levels of each in turn. */
  lemma {:induction false} LevelsJoin(a: string, b: string)
    ensures Levels(a + "/" + b) == Levels(a) + Levels(b)
    decreases |b|
  {
    hide Extend;
    var s := a + "/" + b;
    if b == "" {
      assert s[..|s| - 1] == a;
      SlashOpensLevel(Levels(a));
    } else {
      var n := |b| - 1;
      assert s[..|s| - 1] == a + "/" + b[..n];
      LevelsJoin(a, b[..n]);
      ExtendPrefix(Levels(a), Levels(b[..n]), b[n]);
    }
  }

  lemma SlashOpensLevel(levels: seq<string>)
    requires levels != []
    ensures Extend(levels, '/') == levels + [""]
  {}

  lemma {:induction false} LevelsOfOne(s: string)
    requires '/' !in s
    ensures Levels(s) == [s]
  {
    hide Extend;
    if s != "" {
      var n := |s| - 1;
      LevelsOfOne(s[..n]);
      ExtendOne(s[..n], s[n]);
      assert s == s[..n] + [s[n]];
    }
  }

  lemma ExtendOne(s: string, c: char)
    requires c != '/'
    ensures Extend([s], c) == [s + [c]]
  {}

  /** Characters of a level are characters of the text. */
  lemma {:induction false} LevelsChars(s: string, i: nat, c: char)
    requires i < |Levels(s)| && c in Levels(s)[i]
    ensures c in s
  {
    if s != "" {
      var n := |s| - 1;
      var before := Levels(s[..n]);
      if s[n] == '/' {
        if i < |before| { LevelsChars(s[..n], i, c); }
      } else if i < |before| - 1 {
        LevelsChars(s[..n], i, c);
      } else if c in before[i] {
        LevelsChars(s[..n], i, c);
      }
    }
  }

  // ---------------------------------------------------------------------------------------------
  // Matching

  predicate LevelMatches(f: string, t: string) { f == "+" || f == t }

  /** Section 4.7 of MQTT 3.1.1: `+` stands for one level, and a final `#` for any number of remaining levels, the
      parent included; a `#` anywhere else matches nothing. */
  ghost predicate Matches(filter: seq<string>, topic: seq<string>) {
    if "#" in filter then
      var n := |filter| - 1;
      && filter[n] == "#" && "#" !in filter[..n]
      && |topic| >= n && forall i :: 0 <= i < n ==> LevelMatches(filter[i], topic[i])
    else
      |filter| == |topic| && forall i :: 0 <= i < |filter| ==> LevelMatches(filter[i], topic[i])
  }

  method TopicMatches(filter: string, topic: string) returns (r: bool)
    ensures r <==> Matches(SplitTopic(filter), SplitTopic(topic))
  {
    hide Levels;
    var fp := SplitTopicLoop(filter);
    var tp := SplitTopicLoop(topic);
    for i := 0 to |fp|
      invariant i <= |tp| && "#" !in fp[..i]
      invariant forall j :: 0 <= j < i ==> LevelMatches(fp[j], tp[j])
    {
      assert fp[..i + 1] == fp[..i] + [fp[i]];
      if fp[i] == "#" {
        assert "#" in fp;
        if i != |fp| - 1 { assert fp[i] in fp[..|fp| - 1]; }
        return i == |fp| - 1;
      }
      if i >= |tp| || (fp[i] != "+" && fp[i] != tp[i]) {
        HashCannotSave(fp, tp, i);
        return false;
      }
    }
    assert fp[..|fp|] == fp;
    return |fp| == |tp|;
  }

  /** A level that fails before any `#` was met decides the match. */
  lemma HashCannotSave(fp: seq<string>, tp: seq<string>, i: nat)
    requires i < |fp| && fp[i] != "#" && (i >= |tp| || !LevelMatches(fp[i], tp[i]))
    ensures !Matches(fp, tp)
  {}

  /** Matching level by level: a final `#` takes whatever is left, `+` and an equal level take one. */
  lemma MatchesByLevel(filter: seq<string>, topic: seq<string>)
    ensures filter == [] ==> (Matches(filter, topic) <==> topic == [])
    ensures filter != [] && filter[0] == "#" ==> (Matches(filter, topic) <==> filter == ["#"])
    ensures filter != [] && filter[0] != "#" ==>
              (Matches(filter, topic)
               <==> topic != [] && (filter[0] == "+" || filter[0] == topic[0]) && Matches(filter[1..], topic[1..]))
  {
    if filter != [] {
      var n := |filter| - 1;
      if filter[0] == "#" {
        assert n > 0 ==> filter[..n][0] == "#";
      } else {
        assert "#" in filter <==> "#" in filter[1..] by { assert filter == [filter[0]] + filter[1..]; }
        if n > 0 { assert filter[..n] == [filter[0]] + filter[1..n] && filter[1..][..n - 1] == filter[1..n]; }
        if topic != [] {
          forall i | 1 <= i < |filter| && i < |topic|
            ensures LevelMatches(filter[i], topic[i]) <==> LevelMatches(filter[1..][i - 1], topic[1..][i - 1]) {}
        }
      }
    }
  }

  lemma {:induction false} SlashMakesTwo(s: string)
    requires '/' in s
    ensures |Levels(s)| >= 2
  {
    var n := |s| - 1;
    if s[n] != '/' { SlashMakesTwo(s[..n]); }
  }

  /** The empty topic is matched by the empty filter and by `#` alone. */
  lemma EmptyTopicExactly(filter: string)
    ensures Matches(SplitTopic(filter), SplitTopic("")) <==> filter == "" || filter == "#"
  {
    hide Levels;
    if '/' in filter { SlashMakesTwo(filter); } else { LevelsOfOne(filter); }
  }

  /** A filter ending in `#` matches every topic that begins with the levels before it, if those hold no wildcard. */
  lemma PrefixMatches(base: seq<string>, rest: seq<string>)
    requires "#" !in base
    ensures Matches(base + ["#"], base + rest)
  {
    var filter := base + ["#"];
    assert filter[|base|] == "#" && filter[..|base|] == base;
  }

  // ---------------------------------------------------------------------------------------------
  // Validation and cleaning

  /** `ValidatePublishTopic` accepts. */
  predicate ValidPublish(topic: string) {
    var t := TrimSpace(topic);
    && t != "" && |t| <= MAX_TOPIC && '+' !in t && '#' !in t
    && forall i :: 0 <= i < |Levels(t)| ==> !Blank(Levels(t)[i])
  }

  /** `ValidateSubscribeTopic` accepts: wildcards occupy whole levels, and `#` only the last. */
  predicate ValidSubscribe(topic: string) {
    var t := TrimSpace(topic);
    var parts := Levels(t);
    && t != "" && |t| <= MAX_TOPIC
    && forall i :: 0 <= i < |parts| ==>
         ('#' in parts[i] ==> parts[i] == "#" && i == |parts| - 1) && ('+' in parts[i] ==> parts[i] == "+")
  }

  /** `cleanTopicPart`. */
  function CleanTopicPart(value: string): string {
    Trim(ReplaceChar(TrimSpace(value), ' ', '-'), IsSlash)
  }

  /** Cleaning is not idempotent: it leaves a text alone exactly when that text has no white space or slash at its ends
      and no blank inside. */
  lemma CleanFixpointExact(v: string)
    ensures CleanTopicPart(v) == v <==> Trimmed(v, IsSpace) && Trimmed(v, IsSlash) && ' ' !in v
  {
    hide TrimLeft, TrimRight;
    var t := TrimSpace(v);
    var d := ReplaceChar(t, ' ', '-');
    TrimSpec(v, IsSpace);
    TrimSpec(d, IsSlash);
    if Trimmed(v, IsSpace) && ' ' !in v { assert d == v; }
    if CleanTopicPart(v) == v {
      TrimShortens(v, IsSpace);
      TrimShortens(d, IsSlash);
      assert t == v && d == v;
      NoBlanks(v);
    }
  }

  lemma TrimShortens(s: string, cut: char -> bool)
    ensures |Trim(s, cut)| <= |s| && (|Trim(s, cut)| == |s| ==> Trim(s, cut) == s)
  {
    TrimLeftSpec(s, cut);
    TrimRightSpec(TrimLeft(s, cut), cut);
  }

  /** Cleaning a cleaned part again changes it exactly when trimming slashes uncovered white space. */
  lemma CleanAgain(s: string)
    ensures CleanTopicPart(CleanTopicPart(s)) == CleanTopicPart(s) <==> Trimmed(CleanTopicPart(s), IsSpace)
  {
    hide TrimLeft, TrimRight;
    var d := ReplaceChar(TrimSpace(s), ' ', '-');
    var c := CleanTopicPart(s);
    TrimSpec(d, IsSlash);
    CleanFixpointExact(c);
    NoBlanks(TrimSpace(s));
  }

  lemma NoBlanks(s: string)
    ensures ' ' !in ReplaceChar(s, ' ', '-')
  {}

  /** Such parts exist: a leading slash can hide a tab. */
  lemma CleanNotIdempotent()
    ensures CleanTopicPart("/\ta") == "\ta" && CleanTopicPart("\ta") == "a"
  {
    var s := "/\ta";
    TrimSpaceTrimmed(s);
    assert ReplaceChar(s, ' ', '-') == s;
    assert TrimLeft(s, IsSlash) == "\ta" by { assert s[1..] == "\ta"; }
    assert TrimLeft("\ta", IsSpace) == "a" by { assert "\ta"[1..] == "a"; }
    assert ReplaceChar("a", ' ', '-') == "a";
  }

  /** `NodeEventTopic`. */
  function NodeEventTopic(prefix: string, chainID: string, nodeID: string, component: string,
                          eventType: string): Option<string> {
    var c, n, k, e := CleanTopicPart(chainID), CleanTopicPart(nodeID),
                      CleanTopicPart(component), CleanTopicPart(eventType);
    var topic := Base(prefix, c) + "/nodes/" + n + "/" + k + "/" + e;
    if c == "" || n == "" || k == "" || e == "" || !ValidPublish(topic) then None else Some(topic)
  }

  function Prefix(prefix: string): string {
    if CleanTopicPart(prefix) == "" then DEFAULT_PREFIX else CleanTopicPart(prefix)
  }

  /** What all topics of a chain begin with. */
  function Base(prefix: string, chain: string): string { Prefix(prefix) + "/chains/" + chain }

  /** `ChainSubscribeFilter`. */
  function ChainSubscribeFilter(prefix: string, chainID: string): Option<string> {
    var c := CleanTopicPart(chainID);
    var filter := Base(prefix, c) + "/#";
    if c == "" || !ValidSubscribe(filter) then None else Some(filter)
  }

  /** The chain's filter matches the topic of every event of the chain. */
  lemma FilterMatchesEvents(prefix: string, chainID: string, nodeID: string, component: string, eventType: string)
    requires NodeEventTopic(prefix, chainID, nodeID, component, eventType).Some?
    ensures Matches(SplitTopic(Base(prefix, CleanTopicPart(chainID)) + "/#"),
                    SplitTopic(NodeEventTopic(prefix, chainID, nodeID, component, eventType).value))
  {
    hide CleanTopicPart, Levels, TrimSpace;
    var base := Base(prefix, CleanTopicPart(chainID));
    var topic := NodeEventTopic(prefix, chainID, nodeID, component, eventType).value;
    var rest := "nodes/" + CleanTopicPart(nodeID) + "/" + CleanTopicPart(component) + "/" + CleanTopicPart(eventType);
    assert topic == base + "/" + rest;
    assert base + "/#" == base + "/" + "#";
    LevelsJoin(base, rest);
    LevelsJoin(base, "#");
    LevelsOfOne("#");
    NoHash(base, rest);
    PrefixMatches(Levels(base), Levels(rest));
  }

  lemma NoHash(base: string, rest: string)
    requires ValidPublish(base + "/" + rest)
    ensures "#" !in Levels(base)
  {
    hide Levels, TrimSpace;
    if "#" in Levels(base) {
      var i :| 0 <= i < |Levels(base)| && Levels(base)[i] == "#";
      LevelsChars(base, i, '#');
      HashSurvives(base + "/" + rest);
    }
  }

  lemma HashSurvives(s: string)
    requires '#' in s
    ensures '#' in TrimSpace(s)
  {
    TrimSpec(s, IsSpace);
    assert !IsSpace('#');
  }

  lemma BaseLevels(prefix: string, chain: string)
    requires '/' !in chain
    ensures Levels(Base(prefix, chain)) == Levels(Prefix(prefix)) + ["chains"] + [chain]
  {
    hide Levels, Prefix;
    var p := Prefix(prefix);
    assert Base(prefix, chain) == p + "/" + ("chains" + "/" + chain);
    LevelsJoin(p, "chains" + "/" + chain);
    TwoLevels("chains", chain);
    assert Levels(p) + ["chains", chain] == Levels(p) + ["chains"] + [chain];
  }

  lemma TwoLevels(a: string, b: string)
    requires '/' !in a && '/' !in b
    ensures Levels(a + "/" + b) == [a, b]
  {
    hide Levels;
    LevelsJoin(a, b);
    LevelsOfOne(a);
    LevelsOfOne(b);
  }

  /** The levels of a chain's filter behind any text in front. */
  lemma FilterLevels(front: string, chain: string)
    requires '/' !in chain
    ensures Levels(front + "/chains/" + chain + "/#") == Levels(front) + ["chains", chain, "#"]
  {
    hide Levels;
    var tail := chain + "/" + "#";
    assert front + "/chains/" + chain + "/#" == front + "/" + ("chains" + "/" + tail);
    TwoLevels(chain, "#");
    LevelsJoin("chains", tail);
    LevelsOfOne("chains");
    LevelsJoin(front, "chains" + "/" + tail);
  }

  lemma TrimmedFilter(front: string, chain: string)
    ensures exists k :: 0 <= k <= |front|
                        && TrimSpace(front + "/chains/" + chain + "/#") == front[k..] + "/chains/" + chain + "/#"
  {
    hide TrimSpace;
    var rest := "/chains/" + chain + "/#";
    TrimAround(front, rest, "");
    var k, j :| 0 <= k <= |front| && 0 <= j <= |""| && TrimSpace(front + rest + "") == front[k..] + rest + ""[..j];
    assert front + rest + "" == front + "/chains/" + chain + "/#";
    assert front[k..] + rest + ""[..j] == front[k..] + "/chains/" + chain + "/#";
  }

  lemma ChainIsNoHash(prefix: string, chain: string)
    requires '/' !in chain && ValidSubscribe(Base(prefix, chain) + "/#")
    ensures chain != "#"
  {
    hide Levels, TrimSpace, Prefix;
    var p := Prefix(prefix);
    assert Base(prefix, chain) + "/#" == p + "/chains/" + chain + "/#";
    TrimmedFilter(p, chain);
    var k :| 0 <= k <= |p| && TrimSpace(p + "/chains/" + chain + "/#") == p[k..] + "/chains/" + chain + "/#";
    FilterLevels(p[k..], chain);
    var parts := Levels(p[k..] + "/chains/" + chain + "/#");
    assert parts[|parts| - 2] == chain;
  }

  /** Chains are kept apart: where chain names are single levels, a chain's filter matches an event exactly when the
      event belongs to that chain, unless the name is the wildcard `+`. */
  lemma FilterSeparatesChains(prefix: string, own: string, chainID: string, nodeID: string, component: string,
                              eventType: string)
    requires ChainSubscribeFilter(prefix, own).Some?
    requires NodeEventTopic(prefix, chainID, nodeID, component, eventType).Some?
    requires '/' !in CleanTopicPart(own) && '/' !in CleanTopicPart(chainID)
    ensures Matches(SplitTopic(ChainSubscribeFilter(prefix, own).value),
                    SplitTopic(NodeEventTopic(prefix, chainID, nodeID, component, eventType).value))
       <==> CleanTopicPart(own) == CleanTopicPart(chainID) || CleanTopicPart(own) == "+"
  {
    hide CleanTopicPart, Levels, TrimSpace, Prefix, ValidSubscribe;
    var c, d := CleanTopicPart(own), CleanTopicPart(chainID);
    var topic := NodeEventTopic(prefix, chainID, nodeID, component, eventType).value;
    var rest := "nodes/" + CleanTopicPart(nodeID) + "/" + CleanTopicPart(component) + "/" + CleanTopicPart(eventType);
    assert topic == Base(prefix, d) + "/" + rest;
    assert Base(prefix, c) + "/#" == Base(prefix, c) + "/" + "#";
    LevelsJoin(Base(prefix, d), rest);
    LevelsJoin(Base(prefix, c), "#");
    LevelsOfOne("#");
    BaseLevels(prefix, c);
    BaseLevels(prefix, d);
    NoHash(Base(prefix, d), rest);
    ChainIsNoHash(prefix, c);
    SeparatedLevels(Levels(Prefix(prefix)), c, d, Levels(rest));
  }

  lemma SeparatedLevels(front: seq<string>, c: string, d: string, rest: seq<string>)
    requires "#" !in front + ["chains"] + [d] && c != "#"
    ensures Matches(front + ["chains"] + [c] + ["#"], front + ["chains"] + [d] + rest) <==> c == d || c == "+"
  {
    var n := |front| + 2;
    var filter, topic := front + ["chains"] + [c] + ["#"], front + ["chains"] + [d] + rest;
    assert filter[n] == "#" && filter[..n] == front + ["chains"] + [c];
    assert forall x :: x in front ==> x in front + ["chains"] + [d];
    assert filter[n - 1] == c && topic[n - 1] == d;
    assert forall i :: 0 <= i < n - 1 ==> filter[i] == topic[i];
  }

  // ---------------------------------------------------------------------------------------------
  // Valid topics

  lemma LastLevel(s: string)
    requires s != ""
    ensures var n, l := |s| - 1, Levels(s); var last := l[|l| - 1];
            && (s[n] == '/' <==> last == "" && |l| > 1)
            && (s[n] == '/' ==> Levels(s[..n]) == l[..|l| - 1])
            && (s[n] != '/' ==> last != "" && last[|last| - 1] == s[n]
                                && Levels(s[..n]) == l[..|l| - 1] + [last[..|last| - 1]])
  {
    var n := |s| - 1;
    var before := Levels(s[..n]);
    if s[n] != '/' { assert before == before[..|before| - 1] + [before[|before| - 1]]; }
  }

  /** A text is determined by its levels. */
  lemma {:induction false} LevelsInjective(s: string, t: string)
    requires Levels(s) == Levels(t)
    ensures s == t
  {
    hide Levels;
    if s != "" && t != "" {
      LastLevel(s);
      LastLevel(t);
      var m, n := |s| - 1, |t| - 1;
      LevelsInjective(s[..m], t[..n]);
      assert s == s[..m] + [s[m]] && t == t[..n] + [t[n]];
    } else if s != "" {
      LastLevel(s);
      NoLevels();
    } else if t != "" {
      LastLevel(t);
      NoLevels();
    }
  }

  /** A topic that may be published to is also a filter, and as a filter matches itself and nothing else. */
  lemma PublishTopicIsExact(topic: string, other: string)
    requires ValidPublish(topic)
    ensures ValidSubscribe(topic)
    ensures Matches(SplitTopic(TrimSpace(topic)), SplitTopic(other)) <==> other == TrimSpace(topic)
  {
    hide Levels, TrimSpace;
    var t := TrimSpace(topic);
    var f := Levels(t);
    forall i | 0 <= i < |f| ensures '+' !in f[i] && '#' !in f[i] {
      if '+' in f[i] { LevelsChars(t, i, '+'); }
      if '#' in f[i] { LevelsChars(t, i, '#'); }
    }
    assert forall i :: 0 <= i < |f| ==> f[i] != "+" && f[i] != "#" by {
      assert '+' in "+" && '#' in "#";
    }
    if Matches(f, SplitTopic(other)) && other != "" {
      assert f == Levels(other);
      LevelsInjective(t, other);
    }
  }

  /** A name that needs no cleaning and is one level without wildcards. */
  predicate Simple(name: string) {
    name != "" && Trimmed(name, IsSpace) && '/' !in name && '+' !in name && '#' !in name && ' ' !in name
  }

  lemma SimpleIsClean(name: string)
    requires Simple(name)
    ensures CleanTopicPart(name) == name && !Blank(name) && Levels(name) == [name]
  {
    CleanFixpointExact(name);
    TrimSpaceTrimmed(name);
    LevelsOfOne(name);
  }

  function EventTopic(prefix: string, chain: string, node: string, component: string, event: string): string {
    prefix + "/chains/" + chain + "/nodes/" + node + "/" + component + "/" + event
  }

  lemma NodeLevels(node: string, component: string, event: string)
    requires Simple(node) && Simple(component) && Simple(event)
    ensures Levels("nodes" + "/" + (node + "/" + (component + "/" + event))) == ["nodes", node, component, event]
  {
    hide Levels;
    TwoLevels(component, event);
    LevelsJoin(node, component + "/" + event);
    LevelsOfOne(node);
    LevelsJoin("nodes", node + "/" + (component + "/" + event));
    LevelsOfOne("nodes");
  }

  lemma EventLevels(prefix: string, chain: string, node: string, component: string, event: string)
    requires Simple(prefix) && Simple(chain) && Simple(node) && Simple(component) && Simple(event)
    ensures Levels(EventTopic(prefix, chain, node, component, event))
            == [prefix, "chains", chain, "nodes", node, component, event]
  {
    hide Levels;
    var front := prefix + "/" + ("chains" + "/" + chain);
    var tail := "nodes" + "/" + (node + "/" + (component + "/" + event));
    assert EventTopic(prefix, chain, node, component, event) == front + "/" + tail;
    NodeLevels(node, component, event);
    TwoLevels("chains", chain);
    LevelsJoin(prefix, "chains" + "/" + chain);
    LevelsOfOne(prefix);
    LevelsJoin(front, tail);
  }

  /** With simple names an event's topic and a chain's filter are the names between fixed levels, up to 65535
      characters. */
  lemma SimpleTopics(prefix: string, chain: string, node: string, component: string, event: string)
    requires Simple(prefix) && Simple(chain) && Simple(node) && Simple(component) && Simple(event)
    ensures var t := EventTopic(prefix, chain, node, component, event);
            NodeEventTopic(prefix, chain, node, component, event) == if |t| <= 65535 then Some(t) else None
    ensures var f := prefix + "/chains/" + chain + "/#";
            ChainSubscribeFilter(prefix, chain) == if |f| <= 65535 then Some(f) else None
  {
    hide Levels, CleanTopicPart, TrimSpace;
    SimpleIsClean(prefix);
    SimpleIsClean(chain);
    SimpleIsClean(node);
    SimpleIsClean(component);
    SimpleIsClean(event);
    var t := EventTopic(prefix, chain, node, component, event);
    EventLevels(prefix, chain, node, component, event);
    TrimSpaceTrimmed(t);
    assert '+' !in t && '#' !in t;
    FixedNames();
    SimpleFilter(prefix, chain);
  }

  lemma FixedNames()
    ensures !Blank("chains") && !Blank("nodes")
  {
    TrimSpaceTrimmed("chains");
    TrimSpaceTrimmed("nodes");
  }

  lemma SimpleFilter(prefix: string, chain: string)
    requires Simple(prefix) && Simple(chain)
    ensures var f := prefix + "/chains/" + chain + "/#"; ValidSubscribe(f) <==> |f| <= 65535
  {
    hide Levels, TrimSpace;
    var f := prefix + "/chains/" + chain + "/#";
    FilterLevels(prefix, chain);
    LevelsOfOne(prefix);
    TrimSpaceTrimmed(f);
  }

  lemma LevelBetween(front: string, level: string, back: string)
    requires '/' !in level
    ensures level in Levels(TrimSpace(front + ("/" + level + "/") + back))
  {
    hide Levels, TrimSpace;
    var middle := "/" + level + "/";
    TrimAround(front, middle, back);
    var i, j :| 0 <= i <= |front| && 0 <= j <= |back|
                && TrimSpace(front + middle + back) == front[i..] + middle + back[..j];
    var t := front[i..] + middle + back[..j];
    assert t == front[i..] + "/" + (level + "/" + back[..j]);
    LevelsJoin(front[i..], level + "/" + back[..j]);
    LevelsJoin(level, back[..j]);
    LevelsOfOne(level);
    assert Levels(t)[|Levels(front[i..])|] == level;
  }

  /** A level between two slashes of a topic that may be published to is not blank. */
  lemma InnerLevel(front: string, level: string, back: string)
    requires ValidPublish(front + ("/" + level + "/") + back)
    ensures !Blank(level)
  {
    hide Levels, TrimSpace;
    if '/' !in level { LevelBetween(front, level, back); } else if Blank(level) { BlankIsOneLevel(level); }
  }

  lemma BlankIsOneLevel(s: string)
    requires Blank(s)
    ensures '/' !in s
  {
    TrimSpec(s, IsSpace);
    assert '/' in s ==> '/' in TrimSpace(s);
  }

  /** Level `j` of a text stands at `a`, between slashes or the ends of the text. */
  ghost predicate StandsAt(s: string, j: nat, a: nat) {
    && j < |Levels(s)| && var l := Levels(s)[j]; var end := a + |l|;
       && end <= |s| && s[a..end] == l && '/' !in l && (a == 0 || s[a - 1] == '/')
       && (if j == |Levels(s)| - 1 then end == |s| else end < |s| && s[end] == '/')
  }

  lemma SliceOfPrefix(s: string, n: nat, a: nat, end: nat)
    requires a <= end <= n <= |s|
    ensures s[..n][a..end] == s[a..end] && (a > 0 ==> s[..n][a - 1] == s[a - 1]) && (end < n ==> s[..n][end] == s[end])
  {}

  lemma LevelsStep(s: string)
    requires s != ""
    ensures var n := |s| - 1; var before := Levels(s[..n]); var last := |before| - 1;
            Levels(s) == if s[n] == '/' then before + [""] else before[..last] + [before[last] + [s[n]]]
  {}

  lemma StandsLater(s: string, j: nat, a: nat)
    requires s != "" && StandsAt(s[..|s| - 1], j, a)
    ensures StandsAt(s, j, a)
  {
    hide Levels;
    var n := |s| - 1;
    var before := Levels(s[..n]);
    var end := a + |before[j]|;
    LevelsStep(s);
    SliceOfPrefix(s, n, a, end);
    if s[n] != '/' && j == |before| - 1 { assert s[a..end + 1] == s[a..end] + [s[n]]; }
  }

  lemma {:induction false} LevelStands(s: string, j: nat) returns (a: nat)
    requires j < |Levels(s)|
    ensures StandsAt(s, j, a)
  {
    if s == "" {
      a := 0;
    } else {
      var n := |s| - 1;
      if j < |Levels(s[..n])| {
        a := LevelStands(s[..n], j);
        StandsLater(s, j, a);
      } else {
        a := |s|;
      }
    }
  }

  lemma {:induction false} LevelAround(s: string, i: nat) returns (j: nat, a: nat)
    requires i < |s| && s[i] != '/'
    ensures StandsAt(s, j, a) && a <= i < a + |Levels(s)[j]|
  {
    var n := |s| - 1;
    if i < n {
      j, a := LevelAround(s[..n], i);
      StandsLater(s, j, a);
    } else {
      j := |Levels(s)| - 1;
      a := LevelStands(s, j);
      LastLevel(s);
    }
  }

  /** The characters from `i` up to `end` make up whole levels. */
  ghost predicate Alone(s: string, i: nat, end: nat) {
    i <= end <= |s| && (i == 0 || s[i - 1] == '/') && (end == |s| || s[end] == '/')
  }

  ghost predicate WildcardsAlone(s: string) {
    forall i :: 0 <= i < |s| ==>
      (s[i] == '+' ==> Alone(s, i, i + 1)) && (s[i] == '#' ==> Alone(s, i, i + 1) && i == |s| - 1)
  }

  lemma NoSlashWithin(s: string, j: nat, a: nat)
    requires StandsAt(s, j, a)
    ensures forall k :: a <= k < a + |Levels(s)[j]| ==> s[k] == Levels(s)[j][k - a] != '/'
  {
    hide Levels;
    var l := Levels(s)[j];
    forall k | a <= k < a + |l| ensures s[k] == l[k - a] != '/' {
      assert s[k] == s[a..a + |l|][k - a];
      assert l[k - a] in l;
    }
  }

  lemma LevelAlone(s: string, j: nat, a: nat, c: char)
    requires StandsAt(s, j, a) && c in Levels(s)[j]
    requires forall i :: 0 <= i < |s| && s[i] == c ==> Alone(s, i, i + 1)
    ensures Levels(s)[j] == [c] && s[a] == c
  {
    hide Levels;
    var l := Levels(s)[j];
    var o :| 0 <= o < |l| && l[o] == c;
    NoSlashWithin(s, j, a);
    var p := a + o;
    assert s[p] == c && Alone(s, p, p + 1);
    assert p == a && p + 1 == a + |l|;
  }

  /** A filter is valid exactly when it is not blank, not too long, and every `+` stands alone between slashes, and a
      `#` alone at the end. */
  lemma SubscribeExactly(topic: string)
    ensures var t := TrimSpace(topic);
            ValidSubscribe(topic) <==> t != "" && |t| <= 65535 && WildcardsAlone(t)
  {
    hide Levels, TrimSpace;
    var t := TrimSpace(topic);
    var parts := Levels(t);
    if WildcardsAlone(t) {
      forall j | 0 <= j < |parts|
        ensures '+' in parts[j] ==> parts[j] == "+"
        ensures '#' in parts[j] ==> parts[j] == "#" && j == |parts| - 1 {
        var a := LevelStands(t, j);
        if '+' in parts[j] { LevelAlone(t, j, a, '+'); }
        if '#' in parts[j] { LevelAlone(t, j, a, '#'); }
      }
    }
    if ValidSubscribe(topic) {
      forall i | 0 <= i < |t| && t[i] in "+#"
        ensures Alone(t, i, i + 1) && (t[i] == '#' ==> i == |t| - 1) {
        var j, a := LevelAround(t, i);
        assert t[i] == t[a..a + |parts[j]|][i - a];
        assert t[i] in parts[j];
      }
    }
  }
}
