/** The engine's operations as the results some run of the worker pool can return, and what those results are. */
module Engine {
  import opened Results
  import opened MapReduce
  import Pool = WorkerPool

  /** What the map stage keeps of one plugin call: output with an invalid record is a failure. */
  function CheckedMap(f: MapFn, r: Record): Option<seq<Record>> {
    var out := f(r);
    if out.Some? && forall x :: x in out.value ==> ValidRecord(x) then out else None
  }

  /** What the reduce stage keeps of one plugin call. */
  function CheckedReduce(f: ReduceFn, limits: Limits, g: Group): Option<Record> {
    if |g.values| > limits.maxValuesPerKey then None
    else
      var out := f(g);
      if out.Some? && ValidRecord(out.value) then out else None
  }

  function MapWork(f: MapFn, records: seq<Record>): nat -> Option<seq<Record>> {
    (i: nat) => if i < |records| then CheckedMap(f, records[i]) else None
  }

  function ReduceWork(f: ReduceFn, limits: Limits, groups: seq<Group>): nat -> Option<Record> {
    (i: nat) => if i < |groups| then CheckedReduce(f, limits, groups[i]) else None
  }

  function Values<T>(results: seq<Option<T>>): seq<T>
    requires forall i :: 0 <= i < |results| ==> results[i].Some?
  {
    seq(|results|, i requires 0 <= i < |results| => results[i].value)
  }

  /** `CollectOutputs` as a function. */
  function Collected(outputs: seq<seq<Record>>, limits: Limits): Result<seq<Record>, Failure> {
    if outputs == [] || Within(Concat(outputs), limits) then Ok(Concat(outputs)) else Err(LimitExceeded)
  }

  /** A finished run with a result in every slot. */
  predicate Usable<T>(p: Pool.Pool<T>) {
    Pool.Succeeded(p) && forall i :: 0 <= i < |p.results| ==> p.results[i].Some?
  }

  /** `executeMap` can return `r`: some run of `workers` workers ends and `r` is made from its final state.  By
      `SuccessIsComplete` a run that ends undisturbed has every result. */
  ghost predicate MapReturns(f: MapFn, records: seq<Record>, workers: nat, limits: Limits,
                             r: Result<seq<Record>, Failure>) {
    exists states, steps :: MapRun(f, records, workers, limits, r, states, steps)
  }

  ghost predicate MapRun(f: MapFn, records: seq<Record>, workers: nat, limits: Limits, r: Result<seq<Record>, Failure>,
                         states: seq<Pool.Pool<seq<Record>>>, steps: seq<Pool.Step>) {
    && Pool.IsRun(MapWork(f, records), states, steps) && states[0] == Pool.Start(|records|, workers)
    && Pool.Terminal(states[|steps|])
    && r == if Usable(states[|steps|]) then Collected(Values(states[|steps|].results), limits) else Err(JobFailed)
  }

  ghost predicate ReduceReturns(f: ReduceFn, groups: seq<Group>, workers: nat, limits: Limits,
                                r: Result<seq<Record>, Failure>) {
    exists states, steps :: ReduceRun(f, groups, workers, limits, r, states, steps)
  }

  ghost predicate ReduceRun(f: ReduceFn, groups: seq<Group>, workers: nat, limits: Limits,
                            r: Result<seq<Record>, Failure>,
                            states: seq<Pool.Pool<Record>>, steps: seq<Pool.Step>) {
    && Pool.IsRun(ReduceWork(f, limits, SortGroups(groups)), states, steps)
    && states[0] == Pool.Start(|SortGroups(groups)|, workers) && Pool.Terminal(states[|steps|])
    && r == if !Usable(states[|steps|]) then Err(JobFailed)
            else if Within(Values(states[|steps|].results), limits) then Ok(Values(states[|steps|].results))
            else Err(LimitExceeded)
  }

  // ---------------------------------------------------------------------------------------------
  // What the stages return

  function MapOne(f: MapFn, r: Record): seq<Record> {
    var out := CheckedMap(f, r);
    if out.Some? then out.value else []
  }

  /** The sequential meaning of the map stage: each record's output, in input order. */
  function FlatMap(f: MapFn, records: seq<Record>): seq<Record> {
    if records == [] then []
    else FlatMap(f, records[..|records| - 1]) + MapOne(f, records[|records| - 1])
  }

  /** The sequential meaning of the reduce stage: one record per group. */
  function ReduceAll(f: ReduceFn, groups: seq<Group>): seq<Option<Record>> {
    seq(|groups|, i requires 0 <= i < |groups| => f(groups[i]))
  }

  ghost predicate AllMap(f: MapFn, records: seq<Record>) {
    forall i :: 0 <= i < |records| ==> CheckedMap(f, records[i]).Some?
  }

  ghost predicate AllReduce(f: ReduceFn, limits: Limits, groups: seq<Group>) {
    forall i :: 0 <= i < |groups| ==> CheckedReduce(f, limits, groups[i]).Some?
  }

  lemma {:induction false} ConcatIsFlatMap(f: MapFn, records: seq<Record>, outputs: seq<seq<Record>>)
    requires |outputs| == |records| && forall i :: 0 <= i < |records| ==> outputs[i] == MapOne(f, records[i])
    ensures Concat(outputs) == FlatMap(f, records)
  {
    if records != [] {
      ConcatIsFlatMap(f, records[..|records| - 1], outputs[..|records| - 1]);
    }
  }

  /** Every run of the map stage that returns without an error returns the sequential flat-map, whatever the number
      of workers and the interleaving; and with a worker there is such a run whenever every record maps and the
      output fits. */
  lemma MapRefinesFlatMap(f: MapFn, records: seq<Record>, workers: nat, limits: Limits, out: seq<Record>)
    ensures MapReturns(f, records, workers, limits, Ok(out)) ==>
              AllMap(f, records) && out == FlatMap(f, records) && (records == [] || Within(out, limits))
    ensures workers > 0 && AllMap(f, records) && out == FlatMap(f, records)
            && (records == [] || Within(out, limits)) ==>
              MapReturns(f, records, workers, limits, Ok(out))
  {
    hide CheckedMap, Within;
    var work := MapWork(f, records);
    if MapReturns(f, records, workers, limits, Ok(out)) {
      var states: seq<Pool.Pool<seq<Record>>>, steps: seq<Pool.Step> :|
        MapRun(f, records, workers, limits, Ok(out), states, steps);
      Pool.SuccessIsComplete(work, |records|, workers, states, steps);
      var results := states[|steps|].results;
      forall i | 0 <= i < |records|
        ensures CheckedMap(f, records[i]).Some? && Values(results)[i] == MapOne(f, records[i]) {
        assert results[i] == work(i);
      }
      ConcatIsFlatMap(f, records, Values(results));
    }
    if workers > 0 && AllMap(f, records) && out == FlatMap(f, records) && (records == [] || Within(out, limits)) {
      Pool.StartInv(|records|, workers, work);
      var states, steps := Pool.CanFinish(work, Pool.Start(|records|, workers));
      Pool.SuccessIsComplete(work, |records|, workers, states, steps);
      var results := states[|steps|].results;
      forall i | 0 <= i < |records| ensures Values(results)[i] == MapOne(f, records[i]) {
        assert results[i] == work(i);
      }
      ConcatIsFlatMap(f, records, Values(results));
      assert MapRun(f, records, workers, limits, Ok(out), states, steps);
    }
  }

  /** Every run of the reduce stage that returns without an error returns one record per key-sorted group, in order. */
  lemma ReduceRefinesReduceAll(f: ReduceFn, groups: seq<Group>, workers: nat, limits: Limits, out: seq<Record>)
    ensures ReduceReturns(f, groups, workers, limits, Ok(out)) ==>
              && AllReduce(f, limits, SortGroups(groups)) && Within(out, limits) && |out| == |SortGroups(groups)|
              && forall i :: 0 <= i < |out| ==> Some(out[i]) == ReduceAll(f, SortGroups(groups))[i]
    ensures workers > 0 && AllReduce(f, limits, SortGroups(groups)) && Within(out, limits)
            && |out| == |SortGroups(groups)|
            && (forall i :: 0 <= i < |out| ==> Some(out[i]) == ReduceAll(f, SortGroups(groups))[i]) ==>
              ReduceReturns(f, groups, workers, limits, Ok(out))
  {
    hide Within, SortGroups, ValidRecord;
    var sorted := SortGroups(groups);
    var work := ReduceWork(f, limits, sorted);
    if ReduceReturns(f, groups, workers, limits, Ok(out)) {
      var states: seq<Pool.Pool<Record>>, steps: seq<Pool.Step> :|
        ReduceRun(f, groups, workers, limits, Ok(out), states, steps);
      Pool.SuccessIsComplete(work, |sorted|, workers, states, steps);
      var results := states[|steps|].results;
      forall i | 0 <= i < |sorted| ensures CheckedReduce(f, limits, sorted[i]) == Some(out[i]) {
        assert results[i] == work(i) && out[i] == results[i].value;
      }
    }
    if workers > 0 && AllReduce(f, limits, sorted) && Within(out, limits) && |out| == |sorted|
       && forall i :: 0 <= i < |out| ==> Some(out[i]) == ReduceAll(f, sorted)[i] {
      Pool.StartInv(|sorted|, workers, work);
      var states, steps := Pool.CanFinish(work, Pool.Start(|sorted|, workers));
      Pool.SuccessIsComplete(work, |sorted|, workers, states, steps);
      var results := states[|steps|].results;
      forall i | 0 <= i < |sorted| ensures Values(results)[i] == out[i] {
        assert results[i] == work(i) == CheckedReduce(f, limits, sorted[i]);
        assert ReduceAll(f, sorted)[i] == f(sorted[i]);
      }
      assert Values(results) == out;
      assert ReduceRun(f, groups, workers, limits, Ok(out), states, steps);
    }
  }

  /** A record that a plugin may emit. */
  ghost predicate Emittable(r: Record) { |r.key| <= 1024 && '\0' !in r.key && |r.value| <= 0x10_0000 }

  /** What the plugin answers for each record, in input order. */
  ghost predicate Answered(f: MapFn, records: seq<Record>, outputs: seq<seq<Record>>) {
    && |outputs| == |records|
    && forall i :: 0 <= i < |records| ==>
         f(records[i]) == Some(outputs[i]) && forall x :: x in outputs[i] ==> Emittable(x)
  }

  /** The map stage can return `out` exactly when the plugin answers every record with records that may be emitted,
      `out` joins these answers in input order, and it fits. */
  lemma MapStageExactly(f: MapFn, records: seq<Record>, workers: nat, limits: Limits, out: seq<Record>)
    requires workers > 0
    ensures MapReturns(f, records, workers, limits, Ok(out))
       <==> (exists outputs :: Answered(f, records, outputs) && out == Concat(outputs))
            && (records == [] || Within(out, limits))
  {
    hide MapReturns, Within, FlatMap, Concat;
    MapRefinesFlatMap(f, records, workers, limits, out);
    if AllMap(f, records) {
      var outputs := seq(|records|, i requires 0 <= i < |records| => MapOne(f, records[i]));
      assert Answered(f, records, outputs);
      ConcatIsFlatMap(f, records, outputs);
    }
    forall outputs | Answered(f, records, outputs)
      ensures AllMap(f, records) && Concat(outputs) == FlatMap(f, records) {
      AnsweredMaps(f, records, outputs);
      ConcatIsFlatMap(f, records, outputs);
    }
  }

  lemma AnsweredMaps(f: MapFn, records: seq<Record>, outputs: seq<seq<Record>>)
    requires Answered(f, records, outputs)
    ensures AllMap(f, records) && forall i :: 0 <= i < |records| ==> outputs[i] == MapOne(f, records[i])
  {
    forall i | 0 <= i < |records| ensures CheckedMap(f, records[i]) == Some(outputs[i]) {
      forall x | x in outputs[i] ensures ValidRecord(x) { assert Emittable(x); }
    }
  }

  /** The reduce stage can return `out` exactly when no group is too long, the plugin reduces each key-sorted group to
      the record at its place, which may be emitted, and all of them fit. */
  lemma ReduceStageExactly(f: ReduceFn, groups: seq<Group>, workers: nat, limits: Limits, out: seq<Record>)
    requires workers > 0
    ensures ReduceReturns(f, groups, workers, limits, Ok(out))
       <==> var sorted := SortGroups(groups);
            && |out| == |sorted| && Within(out, limits)
            && forall i :: 0 <= i < |out| ==>
                 f(sorted[i]) == Some(out[i]) && |sorted[i].values| <= limits.maxValuesPerKey && Emittable(out[i])
  {
    hide ReduceReturns, Within, SortGroups;
    ReduceRefinesReduceAll(f, groups, workers, limits, out);
    var sorted := SortGroups(groups);
    if |out| == |sorted| {
      forall i | 0 <= i < |out|
        ensures ReduceAll(f, sorted)[i] == f(sorted[i])
        ensures f(sorted[i]) == Some(out[i]) ==>
                  (CheckedReduce(f, limits, sorted[i]).Some?
                   <==> |sorted[i].values| <= limits.maxValuesPerKey && Emittable(out[i])) {}
    }
  }

  // ---------------------------------------------------------------------------------------------
  // Requests

  /** A node: its plugin, the limits its policy grants (`None` when it denies the call) and its worker count. */
  datatype Node = Node(mapFn: MapFn, reduceFn: ReduceFn, limits: Option<Limits>, workers: nat)

  predicate NormalRecords(records: seq<Record>) {
    1 <= |records| <= MAX_RECORDS && forall r :: r in records ==> ValidRecord(r)
  }

  predicate NormalGroups(groups: seq<Group>) {
    1 <= |groups| <= MAX_GROUPS && forall g :: g in groups ==> ValidGroup(g)
  }

  /** Requests in order: at most 4096 records or groups, at least one, with keys and values of bounded length. */
  lemma RequestLimits(records: seq<Record>, groups: seq<Group>)
    ensures NormalRecords(records) <==> 0 < |records| <= 4096 && forall r :: r in records ==> Emittable(r)
    ensures NormalGroups(groups)
       <==> && 0 < |groups| <= 4096
            && forall g :: g in groups ==>
                 0 < |g.values| <= 4096 && forall v :: v in g.values ==> Emittable(Record(g.key, v))
  {
    forall r ensures ValidRecord(r) <==> Emittable(r) {}
    forall g: Group
      ensures ValidGroup(g)
         <==> 0 < |g.values| <= 4096 && forall v :: v in g.values ==> Emittable(Record(g.key, v)) {
      if |g.values| > 0 { assert g.values[0] in g.values; }
    }
  }

  /** `Execute` of a map request. */
  ghost predicate ExecuteMap(node: Node, records: seq<Record>, r: Result<seq<Record>, Failure>) {
    if !NormalRecords(records) then r == Err(InvalidRequest)
    else if node.limits.None? then r == Err(Denied)
    else MapReturns(node.mapFn, records, node.workers, node.limits.value, r)
  }

  /** `Execute` of a reduce request. */
  ghost predicate ExecuteReduce(node: Node, groups: seq<Group>, r: Result<seq<Record>, Failure>) {
    if !NormalGroups(groups) then r == Err(InvalidRequest)
    else if node.limits.None? then r == Err(Denied)
    else ReduceReturns(node.reduceFn, groups, node.workers, node.limits.value, r)
  }

  /** The second half of a run request: group what was mapped, then reduce it; the grouped request is not normalised
      again. */
  ghost predicate GroupAndReduce(node: Node, limits: Limits, mapped: seq<Record>, r: Result<seq<Record>, Failure>) {
    if !CapHolds(mapped, ValueCap(limits.maxValuesPerKey)) then r == Err(LimitExceeded)
    else exists groups :: IsGrouping(mapped, groups) && ReduceReturns(node.reduceFn, groups, node.workers, limits, r)
  }

  /** `Execute` of a run request on one node. */
  ghost predicate ExecuteRun(node: Node, records: seq<Record>, r: Result<seq<Record>, Failure>) {
    if !NormalRecords(records) then r == Err(InvalidRequest)
    else if node.limits.None? then r == Err(Denied)
    else
      exists mapped ::
        && MapReturns(node.mapFn, records, node.workers, node.limits.value, mapped)
        && if mapped.Err? then r == mapped else GroupAndReduce(node, node.limits.value, mapped.value, r)
  }

  /** A successful run on one node is the grouped and reduced sequential flat-map. */
  lemma RunRefinesSequential(node: Node, records: seq<Record>, out: seq<Record>)
    requires ExecuteRun(node, records, Ok(out))
    ensures exists groups :: IsGrouping(FlatMap(node.mapFn, records), groups) && |out| == |groups|
              && forall i :: 0 <= i < |out| ==> Some(out[i]) == node.reduceFn(groups[i])
  {
    hide IsGrouping, MapReturns, ReduceReturns, NormalRecords, CapHolds, Within;
    var limits := node.limits.value;
    var mapped :| MapReturns(node.mapFn, records, node.workers, limits, mapped)
                  && if mapped.Err? then Ok(out) == mapped else GroupAndReduce(node, limits, mapped.value, Ok(out));
    MapRefinesFlatMap(node.mapFn, records, node.workers, limits, mapped.value);
    var groups :| IsGrouping(mapped.value, groups)
                  && ReduceReturns(node.reduceFn, groups, node.workers, limits, Ok(out));
    ReduceRefinesReduceAll(node.reduceFn, groups, node.workers, limits, out);
    GroupedIsSorted(mapped.value, groups);
  }

  lemma GroupedIsSorted(records: seq<Record>, groups: seq<Group>)
    requires IsGrouping(records, groups)
    ensures SortGroups(groups) == groups
  {
    SortGroupsSorted(groups);
  }

  /** The node answers a run with `out` exactly when it has between 1 and 4096 records in order, its policy admits it,
      the plugin maps them all within the limits, no key gets too many values, and it reduces each group of what was
      mapped to the record at its place. */
  lemma RunExactly(node: Node, records: seq<Record>, out: seq<Record>)
    requires node.workers > 0
    ensures ExecuteRun(node, records, Ok(out))
       <==> && 1 <= |records| <= 4096 && (forall r :: r in records ==> Emittable(r)) && node.limits.Some?
            && AllMap(node.mapFn, records)
            && var mapped, limits := FlatMap(node.mapFn, records), node.limits.value;
               var cap := if limits.maxValuesPerKey > 0 then limits.maxValuesPerKey else 4096;
               && |mapped| <= limits.maxOutputRecords && OutputBytes(mapped) <= limits.maxOutputBytes
               && (forall key :: |KeyPositions(mapped, key)| <= cap)
               && exists groups :: IsGrouping(mapped, groups) && ReducedTo(node, limits, groups, out)
  {
    hide IsGrouping, MapReturns, ReduceReturns, CapHolds, Within, AllMap, FlatMap, ReducedTo;
    RequestLimits(records, []);
    if NormalRecords(records) && node.limits.Some? {
      var limits := node.limits.value;
      var mapped := FlatMap(node.mapFn, records);
      LimitsMean(mapped, limits);
      CapExactly(mapped, ValueCap(limits.maxValuesPerKey));
      forall m ensures MapReturns(node.mapFn, records, node.workers, limits, Ok(m))
                  <==> AllMap(node.mapFn, records) && m == mapped && Within(m, limits) {
        MapRefinesFlatMap(node.mapFn, records, node.workers, limits, m);
      }
      forall groups | IsGrouping(mapped, groups)
        ensures ReduceReturns(node.reduceFn, groups, node.workers, limits, Ok(out))
           <==> ReducedTo(node, limits, groups, out) {
        GroupedIsSorted(mapped, groups);
        ReduceCall(node, limits, groups, out);
      }
    }
  }

  lemma LimitsMean(records: seq<Record>, limits: Limits)
    ensures Within(records, limits)
       <==> |records| <= limits.maxOutputRecords && OutputBytes(records) <= limits.maxOutputBytes
    ensures ValueCap(limits.maxValuesPerKey)
            == if limits.maxValuesPerKey > 0 then limits.maxValuesPerKey else 4096
  {
    hide OutputBytes;
  }

  ghost predicate ReducedTo(node: Node, limits: Limits, groups: seq<Group>, out: seq<Record>) {
    && |out| == |groups| && |out| <= limits.maxOutputRecords && OutputBytes(out) <= limits.maxOutputBytes
    && forall i :: 0 <= i < |out| ==>
         node.reduceFn(groups[i]) == Some(out[i]) && |groups[i].values| <= limits.maxValuesPerKey && Emittable(out[i])
  }

  lemma ReduceCall(node: Node, limits: Limits, groups: seq<Group>, out: seq<Record>)
    requires node.workers > 0 && SortGroups(groups) == groups
    ensures ReduceReturns(node.reduceFn, groups, node.workers, limits, Ok(out))
       <==> ReducedTo(node, limits, groups, out)
  {
    hide ReduceReturns, OutputBytes, SortGroups;
    ReduceStageExactly(node.reduceFn, groups, node.workers, limits, out);
  }
}
