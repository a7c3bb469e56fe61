/** Records, groups, grouping by key, and the engine's map, reduce and run operations. */
module MapReduce {
  import opened Results
  import opened Text
  import opened ByteStrings

  const MAX_RECORDS := 4096
  const MAX_GROUPS := 4096
  const MAX_VALUES_PER_GROUP := 4096
  const MAX_RECORD_KEY_BYTES := 1024
  const MAX_RECORD_VALUE_BYTES := 0x10_0000

  datatype Record = Record(key: string, value: Bytes)

  datatype Group = Group(key: string, values: seq<Bytes>)

  datatype Limits = Limits(maxOutputRecords: int, maxOutputBytes: int, maxValuesPerKey: int)

  datatype Failure = InvalidRequest | Denied | LimitExceeded | JobFailed | Cancelled

  type MapFn = Record -> Option<seq<Record>>
  type ReduceFn = Group -> Option<Record>

  predicate ValidRecord(r: Record) {
    |r.key| <= MAX_RECORD_KEY_BYTES && '\0' !in r.key && |r.value| <= MAX_RECORD_VALUE_BYTES
  }

  predicate ValidGroup(g: Group) {
    && |g.key| <= MAX_RECORD_KEY_BYTES && '\0' !in g.key && 1 <= |g.values| <= MAX_VALUES_PER_GROUP
    && forall v :: v in g.values ==> |v| <= MAX_RECORD_VALUE_BYTES
  }

  // ---------------------------------------------------------------------------------------------
  // Output limits

  function OutputBytes(records: seq<Record>): nat {
    if records == [] then 0
    else OutputBytes(records[..|records| - 1]) + |records[|records| - 1].key| + |records[|records| - 1].value|
  }

  predicate Within(records: seq<Record>, limits: Limits) {
    |records| <= limits.maxOutputRecords && OutputBytes(records) <= limits.maxOutputBytes
  }

  method ValidateOutput(records: seq<Record>, limits: Limits) returns (ok: bool)
    ensures ok <==> Within(records, limits)
  {
    if |records| > limits.maxOutputRecords { return false; }
    var bytes := 0;
    for i := 0 to |records|
      invariant bytes == OutputBytes(records[..i])
    {
      assert records[..i + 1][..i] == records[..i];
      bytes := bytes + |records[i].key| + |records[i].value|;
    }
    assert records[..|records|] == records;
    return bytes <= limits.maxOutputBytes;
  }

  /** One record takes the bytes of its key and value, and those of lists add up. */
  lemma {:induction false} OutputBytesConcat(a: seq<Record>, b: seq<Record>)
    ensures OutputBytes(a + b) == OutputBytes(a) + OutputBytes(b)
    ensures |b| == 1 ==> OutputBytes(b) == |b[0].key| + |b[0].value|
    decreases |b|
  {
    if b == [] {
      assert a + b == a;
    } else {
      assert (a + b)[..|a + b| - 1] == a + b[..|b| - 1];
      OutputBytesConcat(a, b[..|b| - 1]);
    }
  }

  function Concat<T>(lists: seq<seq<T>>): seq<T> {
    if lists == [] then [] else Concat(lists[..|lists| - 1]) + lists[|lists| - 1]
  }

  /** Each list stands whole in the result, after the lists before it and in front of those after it. */
  lemma {:induction false} ConcatSplits<T>(lists: seq<seq<T>>, i: nat)
    requires i < |lists|
    ensures Concat(lists) == Concat(lists[..i]) + lists[i] + Concat(lists[i + 1..])
  {
    var n := |lists| - 1;
    if i < n {
      ConcatSplits(lists[..n], i);
      assert lists[..n][..i] == lists[..i] && lists[..n][i + 1..] == lists[i + 1..n];
      assert lists[i + 1..][..n - i - 1] == lists[i + 1..n] && lists[i + 1..][n - i - 1] == lists[n];
      Reassociate(Concat(lists[..i]), lists[i], Concat(lists[i + 1..n]), lists[n]);
    }
  }

  lemma Reassociate<T>(a: seq<T>, b: seq<T>, c: seq<T>, d: seq<T>)
    ensures a + b + c + d == a + b + (c + d)
  {}

  /** Joins the per-record outputs in input order; the limits are checked after each one, which is the same as
      checking the whole because output only grows. */
  method CollectOutputs(outputs: seq<seq<Record>>, limits: Limits) returns (r: Result<seq<Record>, Failure>)
    ensures r == if outputs == [] || Within(Concat(outputs), limits) then Ok(Concat(outputs)) else Err(LimitExceeded)
  {
    var out: seq<Record> := [];
    for i := 0 to |outputs|
      invariant out == Concat(outputs[..i]) && (i > 0 ==> Within(out, limits))
    {
      assert outputs[..i + 1][..i] == outputs[..i];
      out := out + outputs[i];
      var ok := ValidateOutput(out, limits);
      if !ok {
        PrefixFits(outputs, i + 1, limits);
        return Err(LimitExceeded);
      }
    }
    assert outputs[..|outputs|] == outputs;
    return Ok(out);
  }

  lemma {:induction false} PrefixFits(outputs: seq<seq<Record>>, k: nat, limits: Limits)
    requires k <= |outputs|
    ensures Within(Concat(outputs), limits) ==> Within(Concat(outputs[..k]), limits)
    decreases |outputs|
  {
    if k < |outputs| {
      var n := |outputs| - 1;
      OutputBytesConcat(Concat(outputs[..n]), outputs[n]);
      PrefixFits(outputs[..n], k, limits);
      assert outputs[..n][..k] == outputs[..k];
    } else {
      assert outputs[..k] == outputs;
    }
  }

  // ---------------------------------------------------------------------------------------------
  // Grouping

  /** The values filed under `key`, in record order. */
  function ValuesFor(records: seq<Record>, key: string): seq<Bytes> {
    if records == [] then []
    else
      var r := records[|records| - 1];
      ValuesFor(records[..|records| - 1], key) + if r.key == key then [r.value] else []
  }

  function GroupKeys(groups: seq<Group>): seq<string> {
    seq(|groups|, i requires 0 <= i < |groups| => groups[i].key)
  }

  /** One group per key, in key order, each with exactly that key's values. */
  ghost predicate IsGrouping(records: seq<Record>, groups: seq<Group>) {
    && StrictlySorted(GroupKeys(groups))
    && (forall i :: 0 <= i < |groups| ==> groups[i].values == ValuesFor(records, groups[i].key) != [])
    && forall k :: ValuesFor(records, k) != [] ==> k in GroupKeys(groups)
  }

  function ValueCap(maxValues: int): int { if maxValues <= 0 then MAX_VALUES_PER_GROUP else maxValues }

  ghost predicate CapHolds(records: seq<Record>, cap: int) {
    forall k :: |ValuesFor(records, k)| <= cap
  }

  method CollectValues(records: seq<Record>, cap: int) returns (r: Option<map<string, seq<Bytes>>>)
    requires cap > 0
    ensures r.Some? <==> CapHolds(records, cap)
    ensures r.Some? ==> forall k :: k in r.value <==> ValuesFor(records, k) != []
    ensures r.Some? ==> forall k :: k in r.value ==> r.value[k] == ValuesFor(records, k)
  {
    var grouped: map<string, seq<Bytes>> := map[];
    for i := 0 to |records|
      invariant forall k :: k in grouped <==> ValuesFor(records[..i], k) != []
      invariant forall k :: k in grouped ==> grouped[k] == ValuesFor(records[..i], k)
      invariant CapHolds(records[..i], cap)
    {
      var record := records[i];
      assert records[..i + 1][..i] == records[..i];
      var values := if record.key in grouped then grouped[record.key] else [];
      assert values == ValuesFor(records[..i], record.key);
      if |values| >= cap {
        ValuesGrow(records, i + 1, record.key);
        return None;
      }
      grouped := grouped[record.key := values + [record.value]];
    }
    assert records[..|records|] == records;
    return Some(grouped);
  }

  method GroupRecords(records: seq<Record>, maxValues: int) returns (r: Result<seq<Group>, Failure>)
    ensures r.Ok? <==> CapHolds(records, ValueCap(maxValues))
    ensures r.Ok? ==> IsGrouping(records, r.value)
    ensures r.Err? ==> r.error == LimitExceeded
  {
    hide CapHolds;
    var cap := if maxValues <= 0 then MAX_VALUES_PER_GROUP else maxValues;
    var values := CollectValues(records, cap);
    if values.None? { return Err(LimitExceeded); }
    var grouped := values.value;
    var keys := SortedKeys(grouped.Keys);
    var out: seq<Group> := [];
    for i := 0 to |keys|
      invariant |out| == i && forall j :: 0 <= j < i ==> out[j] == Group(keys[j], grouped[keys[j]])
    {
      out := out + [Group(keys[i], grouped[keys[i]])];
    }
    assert GroupKeys(out) == keys;
    return Ok(out);
  }

  lemma {:induction false} ValuesGrow(records: seq<Record>, i: nat, key: string)
    requires i <= |records|
    ensures |ValuesFor(records[..i], key)| <= |ValuesFor(records, key)|
    decreases |records|
  {
    if i == |records| {
      assert records[..i] == records;
    } else {
      assert records[..|records| - 1][..i] == records[..i];
      ValuesGrow(records[..|records| - 1], i, key);
    }
  }

  /** `positions` are all the places at which a record has this key, in order, and `values` what the records there
      hold. */
  ghost predicate Filed(records: seq<Record>, key: string, values: seq<Bytes>, positions: seq<nat>) {
    && |positions| == |values|
    && (forall m, n :: 0 <= m < n < |positions| ==> positions[m] < positions[n])
    && (forall n :: 0 <= n < |positions| ==>
          positions[n] < |records| && records[positions[n]] == Record(key, values[n]))
    && (forall i: nat :: i < |records| && records[i].key == key ==> i in positions)
  }

  function Positions(records: seq<Record>, key: string): seq<nat> {
    if records == [] then []
    else
      var n := |records| - 1;
      Positions(records[..n], key) + if records[n].key == key then [n] else []
  }

  lemma {:induction false} ValuesFiled(records: seq<Record>, key: string)
    ensures Filed(records, key, ValuesFor(records, key), Positions(records, key))
  {
    if records != [] {
      var n := |records| - 1;
      ValuesFiled(records[..n], key);
      var before, after := Positions(records[..n], key), Positions(records, key);
      forall i: nat | i < |records| && records[i].key == key ensures i in after {
        if i < n {
          assert records[..n][i] == records[i];
          assert i in before;
        } else {
          assert after[|before|] == n;
        }
      }
    }
  }

  lemma {:induction false} FiledIsUnique(records: seq<Record>, key: string, values: seq<Bytes>, positions: seq<nat>)
    requires Filed(records, key, values, positions)
    ensures values == ValuesFor(records, key)
  {
    assert values != [] ==> positions[0] < |records|;
    if records != [] {
      var n, k := |records| - 1, |values| - 1;
      if records[n].key == key {
        assert n in positions;
        assert positions[k] == n;
        FiledIsUnique(records[..n], key, values[..k], positions[..k]) by {
          forall i: nat | i < n && records[..n][i].key == key ensures i in positions[..k] {
            assert records[i].key == key && i in positions;
          }
        }
        assert values == values[..k] + [values[k]];
      } else {
        FiledIsUnique(records[..n], key, values, positions) by {
          forall i: nat | i < n && records[..n][i].key == key ensures i in positions { assert records[i].key == key; }
        }
      }
    }
  }

  /** The group holds, in record order, the value of every record with its key, and at least one. */
  ghost predicate InRecordOrder(records: seq<Record>, g: Group) {
    g.values != [] && exists positions :: Filed(records, g.key, g.values, positions)
  }

  lemma InRecordOrderExactly(records: seq<Record>, g: Group)
    ensures InRecordOrder(records, g) <==> g.values == ValuesFor(records, g.key) != []
  {
    hide Filed, ValuesFor;
    ValuesFiled(records, g.key);
    forall p | Filed(records, g.key, g.values, p) ensures g.values == ValuesFor(records, g.key) {
      FiledIsUnique(records, g.key, g.values, p);
    }
  }

  /** Groups are a grouping of the records exactly when their keys rise strictly and are those of the records, and each
      is in record order. */
  lemma GroupsInRecordOrder(records: seq<Record>, groups: seq<Group>)
    ensures IsGrouping(records, groups)
       <==> && StrictlySorted(GroupKeys(groups))
            && (forall r :: r in records ==> r.key in GroupKeys(groups))
            && (forall i :: 0 <= i < |groups| ==> InRecordOrder(records, groups[i]))
  {
    hide StrictlySorted, InRecordOrder, ValuesFor, GroupKeys;
    KeysOfRecords(records, GroupKeys(groups));
    forall i | 0 <= i < |groups|
      ensures InRecordOrder(records, groups[i])
         <==> groups[i].values == ValuesFor(records, groups[i].key) != [] {
      InRecordOrderExactly(records, groups[i]);
    }
  }

  lemma KeysOfRecords(records: seq<Record>, keys: seq<string>)
    ensures (forall k :: ValuesFor(records, k) != [] ==> k in keys) <==> forall r :: r in records ==> r.key in keys
  {
    hide ValuesFor;
    forall k ensures ValuesFor(records, k) != [] <==> exists r :: r in records && r.key == k { HasKey(records, k); }
    if forall k :: ValuesFor(records, k) != [] ==> k in keys {
      forall r | r in records ensures r.key in keys { assert ValuesFor(records, r.key) != []; }
    }
  }

  lemma HasKey(records: seq<Record>, k: string)
    ensures ValuesFor(records, k) != [] <==> exists r :: r in records && r.key == k
  {
    ValuesFiled(records, k);
    var p := Positions(records, k);
    if p != [] { assert records[p[0]] in records; }
    if r :| r in records && r.key == k {
      var i: nat :| i < |records| && records[i] == r;
      assert i in p;
    }
  }

  function KeyPositions(records: seq<Record>, key: string): set<int> {
    set i | 0 <= i < |records| && records[i].key == key
  }

  lemma {:induction false} ValuesCount(records: seq<Record>, key: string)
    ensures |ValuesFor(records, key)| == |KeyPositions(records, key)|
  {
    if records == [] {
      assert KeyPositions(records, key) == {};
    } else {
      var n := |records| - 1;
      ValuesCount(records[..n], key);
      var more: set<int> := if records[n].key == key then {n} else {};
      assert KeyPositions(records, key) == KeyPositions(records[..n], key) + more;
    }
  }

  /** The cap holds exactly when no key is that of more records. */
  lemma CapExactly(records: seq<Record>, cap: int)
    ensures CapHolds(records, cap) <==> forall key :: |KeyPositions(records, key)| <= cap
  {
    hide ValuesFor, KeyPositions;
    forall key ensures |ValuesFor(records, key)| == |KeyPositions(records, key)| { ValuesCount(records, key); }
  }

  /** How often a value is filed under a key is how often that record occurs. */
  lemma {:induction false} ValueCount(records: seq<Record>, key: string, v: Bytes)
    ensures multiset(ValuesFor(records, key))[v] == multiset(records)[Record(key, v)]
  {
    if records != [] {
      var before, r := records[..|records| - 1], records[|records| - 1];
      ValueCount(before, key, v);
      assert records == before + [r];
      if r.key == key {
        assert multiset(ValuesFor(records, key)) == multiset(ValuesFor(before, key)) + multiset{r.value};
      }
    }
  }

  lemma SameValues(a: seq<Record>, b: seq<Record>, key: string)
    requires multiset(a) == multiset(b)
    ensures multiset(ValuesFor(a, key)) == multiset(ValuesFor(b, key)) && |ValuesFor(a, key)| == |ValuesFor(b, key)|
  {
    forall v ensures multiset(ValuesFor(a, key))[v] == multiset(ValuesFor(b, key))[v] {
      ValueCount(a, key, v);
      ValueCount(b, key, v);
    }
    assert |ValuesFor(a, key)| == |multiset(ValuesFor(a, key))|;
    assert |ValuesFor(b, key)| == |multiset(ValuesFor(b, key))|;
  }

  /** Grouping depends only on which records there are, not on their order, up to the order of each group's values. */
  lemma GroupingOrderFree(a: seq<Record>, b: seq<Record>, ga: seq<Group>, gb: seq<Group>)
    requires multiset(a) == multiset(b) && IsGrouping(a, ga) && IsGrouping(b, gb)
    ensures |ga| == |gb|
    ensures forall i :: 0 <= i < |ga| ==> ga[i].key == gb[i].key && multiset(ga[i].values) == multiset(gb[i].values)
  {
    forall k ensures k in GroupKeys(ga) <==> k in GroupKeys(gb) {
      SameValues(a, b, k);
      KeyHasValues(a, ga, k);
      KeyHasValues(b, gb, k);
    }
    SortedUnique(GroupKeys(ga), GroupKeys(gb));
    assert |ga| == |GroupKeys(ga)| == |gb|;
    forall i | 0 <= i < |ga| ensures ga[i].key == gb[i].key && multiset(ga[i].values) == multiset(gb[i].values) {
      assert GroupKeys(ga)[i] == GroupKeys(gb)[i];
      SameValues(a, b, ga[i].key);
    }
  }

  lemma KeyHasValues(records: seq<Record>, groups: seq<Group>, k: string)
    requires IsGrouping(records, groups)
    ensures k in GroupKeys(groups) <==> ValuesFor(records, k) != []
  {
    if k in GroupKeys(groups) {
      var i :| 0 <= i < |groups| && GroupKeys(groups)[i] == k;
      assert groups[i].values == ValuesFor(records, groups[i].key) != [];
    }
  }

  // ---------------------------------------------------------------------------------------------
  // Stable sorting by key

  function InsertGroup(sorted: seq<Group>, g: Group): seq<Group> {
    if sorted != [] && Less(g.key, sorted[|sorted| - 1].key)
    then InsertGroup(sorted[..|sorted| - 1], g) + [sorted[|sorted| - 1]]
    else sorted + [g]
  }

  /** `sort.SliceStable` by key. */
  function SortGroups(groups: seq<Group>): seq<Group> {
    if groups == [] then [] else InsertGroup(SortGroups(groups[..|groups| - 1]), groups[|groups| - 1])
  }

  ghost predicate SortedByKey(groups: seq<Group>) {
    forall i, j :: 0 <= i < j < |groups| ==> !Less(groups[j].key, groups[i].key)
  }

  function WithKey(groups: seq<Group>, key: string): seq<Group> {
    if groups == [] then []
    else WithKey(groups[..|groups| - 1], key) + if groups[|groups| - 1].key == key then [groups[|groups| - 1]] else []
  }

  lemma {:induction false} InsertBag(sorted: seq<Group>, g: Group)
    ensures multiset(InsertGroup(sorted, g)) == multiset(sorted) + multiset{g}
  {
    if sorted != [] && Less(g.key, sorted[|sorted| - 1].key) {
      InsertBag(sorted[..|sorted| - 1], g);
      assert sorted == sorted[..|sorted| - 1] + [sorted[|sorted| - 1]];
    }
  }

  lemma {:induction false} InsertStable(sorted: seq<Group>, g: Group, k: string)
    ensures WithKey(InsertGroup(sorted, g), k) == WithKey(sorted, k) + if g.key == k then [g] else []
  {
    var r := InsertGroup(sorted, g);
    if sorted != [] && Less(g.key, sorted[|sorted| - 1].key) {
      var before, last := sorted[..|sorted| - 1], sorted[|sorted| - 1];
      InsertStable(before, g, k);
      LessAsymmetric(g.key, last.key);
      assert r[..|r| - 1] == InsertGroup(before, g);
    } else {
      assert r[..|r| - 1] == sorted;
    }
  }

  lemma {:induction false} InsertSorted(sorted: seq<Group>, g: Group)
    requires SortedByKey(sorted)
    ensures SortedByKey(InsertGroup(sorted, g))
  {
    var r := InsertGroup(sorted, g);
    if sorted != [] && Less(g.key, sorted[|sorted| - 1].key) {
      var n := |sorted| - 1;
      var before, last := sorted[..n], sorted[n];
      InsertSorted(before, g);
      InsertBag(before, g);
      var shorter := InsertGroup(before, g);
      LessAsymmetric(g.key, last.key);
      forall i | 0 <= i < |shorter| ensures !Less(last.key, shorter[i].key) {
        assert shorter[i] in multiset(shorter);
        if shorter[i] != g {
          assert shorter[i] in before;
          var j :| 0 <= j < n && before[j] == shorter[i];
        }
      }
      AppendSorted(shorter, last);
    } else {
      forall i | 0 <= i < |sorted| ensures !Less(g.key, sorted[i].key) {
        if i < |sorted| - 1 { NotLessTransitive(g.key, sorted[|sorted| - 1].key, sorted[i].key); }
      }
      AppendSorted(sorted, g);
    }
  }

  lemma AppendSorted(sorted: seq<Group>, g: Group)
    requires SortedByKey(sorted) && forall i :: 0 <= i < |sorted| ==> !Less(g.key, sorted[i].key)
    ensures SortedByKey(sorted + [g])
  {}

  lemma NotLessTransitive(a: string, b: string, c: string)
    requires !Less(a, b) && !Less(b, c)
    ensures !Less(a, c)
  {
    if Less(a, c) {
      LessTotal(b, c);
      if b != c { LessTransitive(a, c, b); }
    }
  }

  /** The sort is ordered, keeps every group, and keeps groups of one key in their order. */
  lemma {:induction false} SortGroupsSpec(groups: seq<Group>, k: string)
    ensures SortedByKey(SortGroups(groups)) && multiset(SortGroups(groups)) == multiset(groups)
    ensures WithKey(SortGroups(groups), k) == WithKey(groups, k)
    ensures |SortGroups(groups)| == |groups|
  {
    hide InsertGroup, Less;
    if groups != [] {
      var before, last := groups[..|groups| - 1], groups[|groups| - 1];
      SortGroupsSpec(before, k);
      InsertSorted(SortGroups(before), last);
      InsertBag(SortGroups(before), last);
      InsertStable(SortGroups(before), last, k);
      assert groups == before + [last];
    }
    assert |multiset(SortGroups(groups))| == |SortGroups(groups)| && |multiset(groups)| == |groups|;
  }

  lemma InsertLast(sorted: seq<Group>, g: Group)
    requires sorted == [] || !Less(g.key, sorted[|sorted| - 1].key)
    ensures InsertGroup(sorted, g) == sorted + [g]
  {}

  lemma {:induction false} SortGroupsSorted(groups: seq<Group>)
    requires StrictlySorted(GroupKeys(groups))
    ensures SortGroups(groups) == groups
  {
    hide Less, InsertGroup;
    if groups != [] {
      var n := |groups| - 1;
      var before := groups[..n];
      assert GroupKeys(before) == GroupKeys(groups)[..n];
      SortGroupsSorted(before);
      if n > 0 {
        assert Less(GroupKeys(groups)[n - 1], GroupKeys(groups)[n]);
        LessAsymmetric(groups[n - 1].key, groups[n].key);
      }
      InsertLast(before, groups[n]);
      assert groups == before + [groups[n]];
    }
  }
}
