/** The file service's operation brackets over the durable core: every executed operation takes one ID and is recorded
    at most once. */
module FileService {
  import opened Numbers
  import opened FileCore

  /** `eventMutates`: whether an operation may change files; an open does when its mode asks to write or truncate. */
  predicate Mutates(op: Operation, mode: U32) {
    match op
    case Create => true
    case Write => true
    case Remove => true
    case PrepareReplace => true
    case CommitReplace => true
    case AbortReplace => true
    case Open => mode % 4 != 0 || (mode / 16) % 2 == 1
    case _ => false
  }

  /** A running operation. */
  datatype Begun = Begun(op: Operation, mode: U32)

  /** The core and the operations that began and have not ended. */
  datatype Service = Service(disk: Disk, readOnly: bool, pending: multiset<Begun>)

  /** What `Begin` meets: how storing the ID fares, whether the event is well formed and the hooks agree, and how the
      record of a refused operation fares (`recordable` when its final event is well formed). */
  datatype Begin = Begin(op: Begun, id: Outcome, normal: bool, hooksAgree: bool, recordable: bool,
                         payload: string, f: Faults)

  /** What `Complete` meets. */
  datatype End = End(op: Begun, failed: bool, paths: seq<string>, recordable: bool, payload: string, f: Faults)

  /** `Complete`: a failed operation changes no path versions, and an event that is not well formed is not recorded. */
  function AfterComplete(d: Disk, e: End): Disk {
    if !e.recordable then d
    else AfterRecord(d, Entry(e.op.op, e.failed, if e.failed then [] else e.paths, e.payload), e.f)
  }

  /** `Begin` runs the operation only if hooks agree and the service may change what the operation changes. */
  predicate Admits(s: Service, b: Begin) {
    b.id == Done && b.normal && b.hooksAgree && !(s.readOnly && Mutates(b.op.op, b.op.mode))
  }

  function AfterBegin(s: Service, b: Begin): Service {
    var d := AfterNextID(s.disk, b.id);
    if b.id != Done || !b.normal then s.(disk := d)
    else if Admits(s, b) then s.(disk := d, pending := s.pending + multiset{b.op})
    else s.(disk := AfterComplete(d, End(b.op, true, [], b.recordable, b.payload, b.f)))
  }

  /** Steps of concurrent `Execute` calls: each begins, its operation runs, and it completes once. */
  datatype Step = BeginStep(b: Begin) | EndStep(e: End) | Crash

  predicate Enabled(s: Service, step: Step) {
    (step.EndStep? ==> step.e.op in s.pending) && (step.Crash? ==> Loadable(Saved(s.disk)))
  }

  /** A crash loses the running operations and the memory; the core starts again from what the store holds. */
  function Next(s: Service, step: Step): Service
    requires Enabled(s, step)
  {
    match step
    case BeginStep(b) => AfterBegin(s, b)
    case EndStep(e) => s.(disk := AfterComplete(s.disk, e), pending := s.pending - multiset{e.op})
    case Crash => s.(disk := Restarted(s.disk), pending := multiset{})
  }

  ghost predicate IsRun(states: seq<Service>, steps: seq<Step>) {
    && |states| == |steps| + 1
    && forall i :: 0 <= i < |steps| ==> Enabled(states[i], steps[i]) && states[i + 1] == Next(states[i], steps[i])
  }

  // ---------------------------------------------------------------------------------------------
  // Sums of counters

  function Sum(m: Memory, ops: seq<Operation>): nat {
    if ops == [] then 0 else Sum(m, ops[..|ops| - 1]) + Count(m, ops[|ops| - 1])
  }

  /** All operations ever recorded. */
  function Total(m: Memory): nat { Sum(m, ALL_OPERATIONS) }

  lemma {:induction false} SumIncrement(m: Memory, n: Memory, ops: seq<Operation>, op: Operation)
    requires forall x :: Count(n, x) == if x == op then Count(m, x) + 1 else Count(m, x)
    requires forall i, j :: 0 <= i < j < |ops| ==> ops[i] != ops[j]
    ensures Sum(n, ops) == Sum(m, ops) + if op in ops then 1 else 0
  {
    hide Count;
    if ops != [] {
      SumIncrement(m, n, ops[..|ops| - 1], op);
      assert ops == ops[..|ops| - 1] + [ops[|ops| - 1]];
    }
  }

  lemma {:induction false} CountWithinSum(m: Memory, ops: seq<Operation>, op: Operation)
    requires op in ops
    ensures Count(m, op) <= Sum(m, ops)
  {
    if ops[|ops| - 1] != op { CountWithinSum(m, ops[..|ops| - 1], op); }
  }

  lemma {:induction false} SumSame(m: Memory, n: Memory, ops: seq<Operation>)
    requires forall op :: Count(m, op) == Count(n, op)
    ensures Sum(m, ops) == Sum(n, ops)
  {
    hide Count;
    if ops != [] { SumSame(m, n, ops[..|ops| - 1]); }
  }

  lemma OperationsDistinct()
    ensures forall i, j :: 0 <= i < j < |ALL_OPERATIONS| ==> ALL_OPERATIONS[i] != ALL_OPERATIONS[j]
  {}

  /** One more of an operation is one more in total. */
  lemma TotalIncrement(m: Memory, n: Memory, op: Operation)
    requires Total(m) < MOD64 - 1 && forall x :: Count(n, x) == if x == op then Inc64(Count(m, x)) else Count(m, x)
    ensures Total(n) == Total(m) + 1
  {
    hide Count, Sum;
    AllListed();
    OperationsDistinct();
    CountWithinSum(m, ALL_OPERATIONS, op);
    SumIncrement(m, n, ALL_OPERATIONS, op);
  }

  // ---------------------------------------------------------------------------------------------
  // What a restart would count

  /** The memory that a restart would load, if the store was not erased. */
  function Later(d: Disk): Memory { Lead(d.mem, d.ahead) }

  lemma LaterCount(d: Disk, op: Operation)
    ensures Count(Later(d), op) == if CounterKey(op) in d.ahead then Inc64(Count(d.mem, op)) else Count(d.mem, op)
  {
    hide Inc64;
  }

  /** A restart would count at least what is counted now, and more where anything is ahead. */
  lemma {:induction false} LaterSum(d: Disk, ops: seq<Operation>)
    requires Sum(d.mem, ops) < MOD64 - 1
    ensures Sum(d.mem, ops) <= Sum(Later(d), ops)
    ensures (exists op :: op in ops && CounterKey(op) in d.ahead) ==> Sum(d.mem, ops) < Sum(Later(d), ops)
  {
    hide Count, Lead;
    if ops != [] {
      var n := |ops| - 1;
      LaterSum(d, ops[..n]);
      LaterGrows(d, ops[n]);
      assert ops == ops[..n] + [ops[n]];
    }
  }

  lemma LaterGrows(d: Disk, op: Operation)
    requires Count(d.mem, op) < MOD64 - 1
    ensures Count(Later(d), op) == Count(d.mem, op) + if CounterKey(op) in d.ahead then 1 else 0
  {
    hide Count, Lead;
    LaterCount(d, op);
  }

  /** What a record does to the counts, now and after a restart, when its batch is stored. */
  lemma RecordCounts(d: Disk, e: Entry, f: Faults)
    requires Readable(d, e, f) && (f.outcome == Done || f.outcome == Unconfirmed)
    ensures var t := AfterRecord(d, e, f);
            && (forall x :: Count(Later(t), x) == if x == e.op then Inc64(Count(d.mem, x)) else Count(Later(d), x))
            && (f.outcome == Done ==>
                  forall x :: Count(t.mem, x) == if x == e.op then Inc64(Count(d.mem, x)) else Count(d.mem, x))
  {
    hide Readable, Batch, Inc64, Lead;
    var t := AfterRecord(d, e, f);
    forall x ensures Count(Later(t), x) == if x == e.op then Inc64(Count(d.mem, x)) else Count(Later(d), x) {
      LaterCount(d, x);
      LaterCount(t, x);
    }
  }

  lemma RecordTotals(d: Disk, e: Entry, f: Faults)
    requires Total(Later(d)) < MOD64 - 1 && Total(d.mem) <= Total(Later(d))
    ensures var t := AfterRecord(d, e, f);
            && Total(Later(d)) <= Total(Later(t)) <= Total(Later(d)) + 1
            && Total(t.mem) == Total(d.mem) + if Recorded(d, e, f) then 1 else 0
  {
    hide Readable, Batch, Inc64, Lead, Count, Sum;
    var t := AfterRecord(d, e, f);
    if Readable(d, e, f) && (f.outcome == Done || f.outcome == Unconfirmed) {
      RecordCounts(d, e, f);
      LaterCount(d, e.op);
      if CounterKey(e.op) in d.ahead {
        SumSame(Later(t), Later(d), ALL_OPERATIONS);
      } else {
        TotalIncrement(Later(d), Later(t), e.op);
      }
      if f.outcome == Done { TotalIncrement(d.mem, t.mem, e.op); }
    } else {
      NothingStored(d, e, f);
    }
  }

  lemma NothingStored(d: Disk, e: Entry, f: Faults)
    requires !Readable(d, e, f) || f.outcome == Refused || f.outcome == Erased
    ensures AfterRecord(d, e, f).mem == d.mem && AfterRecord(d, e, f).ahead == d.ahead
  {
    hide Readable, Batch;
  }

  /** Errors are at most the operations, now and after a restart. */
  ghost predicate ErrorsWithin(d: Disk) {
    d.mem.errors <= Total(d.mem) <= Total(Later(d)) && Later(d).errors <= Total(Later(d))
  }

  lemma RecordErrors(d: Disk, e: Entry, f: Faults)
    requires ErrorsWithin(d) && Total(Later(d)) < MOD64 - 2
    ensures ErrorsWithin(AfterRecord(d, e, f))
  {
    hide Readable, Batch, Count, Sum;
    RecordTotals(d, e, f);
    var t := AfterRecord(d, e, f);
    LaterSum(t, ALL_OPERATIONS);
    if Readable(d, e, f) && f.outcome == Unconfirmed {
      AllListed();
      assert e.op in ALL_OPERATIONS && CounterKey(e.op) in t.ahead;
    }
  }

  /** Completing adds at most one to the total, now and after a restart, and errors keep below it, while nothing
      wraps. */
  lemma CompleteCounts(d: Disk, e: End)
    requires ErrorsWithin(d) && Total(Later(d)) < MOD64 - 2
    ensures var t := AfterComplete(d, e);
            && t.mem.sequence == d.mem.sequence && ErrorsWithin(t)
            && Total(d.mem) <= Total(t.mem) <= Total(d.mem) + 1
            && Total(Later(d)) <= Total(Later(t)) <= Total(Later(d)) + 1
  {
    hide Readable, Batch, Sum, Count, Lead;
    if e.recordable {
      var entry := Entry(e.op.op, e.failed, if e.failed then [] else e.paths, e.payload);
      RecordTotals(d, entry, e.f);
      RecordErrors(d, entry, e.f);
    }
  }

  // ---------------------------------------------------------------------------------------------
  // The bracket invariant

  /** Operations that are or would be recorded and running ones together are at most the IDs taken. */
  ghost predicate Bracketed(s: Service) {
    Total(Later(s.disk)) + |s.pending| <= s.disk.mem.sequence && ErrorsWithin(s.disk) && Tracks(s.disk)
  }

  lemma NextIDBrackets(d: Disk, w: Outcome)
    requires d.mem.sequence < MOD64 - 1
    ensures var t := AfterNextID(d, w);
            && Total(Later(t)) == Total(Later(d)) && Total(t.mem) == Total(d.mem)
            && (ErrorsWithin(d) ==> ErrorsWithin(t))
            && t.mem.sequence == d.mem.sequence + if w == Done then 1 else 0
  {
    hide Sum;
    var t := AfterNextID(d, w);
    forall op ensures Count(Later(t), op) == Count(Later(d), op) && Count(t.mem, op) == Count(d.mem, op) {
      LaterCount(d, op);
      LaterCount(t, op);
    }
    SumSame(Later(t), Later(d), ALL_OPERATIONS);
    SumSame(t.mem, d.mem, ALL_OPERATIONS);
  }

  lemma BeginBrackets(s: Service, b: Begin)
    requires Bracketed(s) && s.disk.mem.sequence < MOD64 - 2
    ensures Bracketed(AfterBegin(s, b))
    ensures s.disk.mem.sequence <= AfterBegin(s, b).disk.mem.sequence <= s.disk.mem.sequence + 1
  {
    hide Admits, AfterComplete, Tracks, Later, AfterNextID, ErrorsWithin, Total;
    var d := AfterNextID(s.disk, b.id);
    NextIDBrackets(s.disk, b.id);
    NextIDTracks(s.disk, b.id);
    var e := End(b.op, true, [], b.recordable, b.payload, b.f);
    CompleteCounts(d, e);
    CompleteTracks(d, e);
  }

  lemma CompleteTracks(d: Disk, e: End)
    requires Tracks(d)
    ensures Tracks(AfterComplete(d, e))
  {
    hide AfterRecord, Tracks;
    RecordTracks(d, Entry(e.op.op, e.failed, if e.failed then [] else e.paths, e.payload), e.f);
  }

  lemma EndBrackets(s: Service, e: End)
    requires Bracketed(s) && e.op in s.pending && s.disk.mem.sequence < MOD64 - 2
    ensures Bracketed(Next(s, EndStep(e))) && Next(s, EndStep(e)).disk.mem.sequence == s.disk.mem.sequence
  {
    hide AfterComplete, Tracks, Later, ErrorsWithin, Total;
    CompleteCounts(s.disk, e);
    CompleteTracks(s.disk, e);
  }

  /** After a crash the memory is one step further where anything was ahead, or empty if the store was erased. */
  lemma CrashBrackets(s: Service)
    requires Bracketed(s) && s.disk.mem.sequence < MOD64 - 1
    ensures Enabled(s, Crash) && Bracketed(Next(s, Crash))
    ensures Next(s, Crash).disk.mem == if s.disk.erased then ZERO else Later(s.disk)
    ensures Next(s, Crash).disk.mem.sequence <= s.disk.mem.sequence + 1
  {
    hide Tracks, Loadable, Loaded, Sum, Count;
    TracksMeans(s.disk);
    EmptyLoads();
    LoadTracks(Saved(s.disk));
    var d := Restarted(s.disk);
    LeadExact(d);
    NothingCounted(ALL_OPERATIONS);
  }

  /** In every run of concurrent executions with store failures of every kind, crashes and reloads of fewer than 2^64 -
      2 steps, the counters sum to at most the sequence, also counting the operations still running and what a restart
      would count, and errors to at most the counters; and a restart is possible at any point. */
  lemma {:induction false} CountersWithinSequence(states: seq<Service>, steps: seq<Step>, k: nat)
    requires IsRun(states, steps) && Bracketed(states[0]) && k < |states|
    requires states[0].disk.mem.sequence + |steps| < MOD64 - 2
    ensures Bracketed(states[k]) && Enabled(states[k], Crash)
    ensures states[k].disk.mem.sequence <= states[0].disk.mem.sequence + k
  {
    hide AfterBegin, Bracketed, Next, Enabled;
    if k > 0 {
      CountersWithinSequence(states, steps, k - 1);
      var i := k - 1;
      assert Enabled(states[i], steps[i]) && states[i + 1] == Next(states[i], steps[i]);
      StepBrackets(states[i], steps[i]);
    }
    CrashBrackets(states[k]);
  }

  lemma StepBrackets(s: Service, step: Step)
    requires Bracketed(s) && Enabled(s, step) && s.disk.mem.sequence < MOD64 - 2
    ensures Bracketed(Next(s, step)) && Next(s, step).disk.mem.sequence <= s.disk.mem.sequence + 1
  {
    hide AfterBegin, Bracketed;
    match step
    case BeginStep(b) => BeginBrackets(s, b);
    case EndStep(e) => EndBrackets(s, e);
    case Crash => CrashBrackets(s);
  }

  /** A service over an empty store. */
  function Opened(readOnly: bool): Service { Service(Disk(ZERO, map[], false, {}), readOnly, multiset{}) }

  lemma FreshBracketed(readOnly: bool)
    ensures Bracketed(Opened(readOnly))
  {
    hide Sum;
    NothingCounted(ALL_OPERATIONS);
    EmptyLoads();
    LoadTracks(map[]);
    LeadExact(Opened(readOnly).disk);
  }

  lemma {:induction false} NothingCounted(ops: seq<Operation>)
    ensures Sum(ZERO, ops) == 0
  {
    if ops != [] { NothingCounted(ops[..|ops| - 1]); }
  }

  /** So it is in every run from an empty store. */
  lemma CountersFromEmpty(readOnly: bool, states: seq<Service>, steps: seq<Step>, k: nat)
    requires IsRun(states, steps) && states[0] == Opened(readOnly) && k < |states| && |steps| < MOD64 - 2
    ensures Bracketed(states[k])
  {
    hide IsRun, Bracketed;
    FreshBracketed(readOnly);
    CountersWithinSequence(states, steps, k);
  }

  // ---------------------------------------------------------------------------------------------
  // Every ID accounted for

  /** Looks at files only: it opens them at most for reading, without truncating. */
  ghost predicate LooksOnly(b: Begun) {
    || b.op in {Attach, Walk, Read, Clunk, Stat, ReadDir}
    || (b.op == Open && b.mode % 4 == 0 && b.mode / 16 % 2 == 0)
  }

  lemma MutatesExactly(b: Begun)
    ensures Mutates(b.op, b.mode) <==> !LooksOnly(b)
  {}

  /** An operation is started exactly when it got its ID, its event is well formed, the hooks agree, and the service
      is not read-only or the operation only looks at files. A refused one that is recorded counts as a failed
      operation. */
  lemma BeginExactly(s: Service, b: Begin)
    ensures var t := AfterBegin(s, b); var starts := b.hooksAgree && (!s.readOnly || LooksOnly(b.op));
            && (t.pending == s.pending + multiset{b.op} <==> b.id == Done && b.normal && starts)
            && (t.pending != s.pending + multiset{b.op} ==> t.pending == s.pending)
            && t.readOnly == s.readOnly
            && (b.id == Done && b.normal && !starts && b.recordable && b.f.outcome == Done ==>
                  && Count(t.disk.mem, b.op.op) == Inc64(Count(s.disk.mem, b.op.op))
                  && t.disk.mem.errors == Inc64(s.disk.mem.errors))
  {
    hide LooksOnly, Mutates, Inc64;
    MutatesExactly(b.op);
    assert VersionKeys([]) == {};
    var more := s.pending + multiset{b.op};
    assert s.pending != more by { assert more[b.op] == s.pending[b.op] + 1; }
  }

  /** What `Complete` hands to the core. */
  function EntryOf(e: End): Entry { Entry(e.op.op, e.failed, if e.failed then [] else e.paths, e.payload) }

  /** The step uses up an ID, or ends an operation, without leaving a record: the event is not well formed, its record
      cannot be made, or the store does not confirm it. */
  ghost predicate Unrecorded(s: Service, step: Step) {
    match step
    case BeginStep(b) =>
      b.id == Done && (!b.normal || (!(b.hooksAgree && (!s.readOnly || LooksOnly(b.op)))
                                     && !(b.recordable && b.f.outcome == Done)))
    case EndStep(e) => !(e.recordable && e.f.outcome == Done && Readable(s.disk, EntryOf(e), e.f))
    case Crash => false
  }

  ghost function UnrecordedIn(states: seq<Service>, steps: seq<Step>, k: nat): nat
    requires k <= |steps| <= |states|
  {
    if k == 0 then 0
    else UnrecordedIn(states, steps, k - 1) + if Unrecorded(states[k - 1], steps[k - 1]) then 1 else 0
  }

  /** IDs taken that are neither recorded nor running. */
  function Missing(s: Service): int { s.disk.mem.sequence - Total(s.disk.mem) - |s.pending| }

  lemma CompleteAccounts(d: Disk, e: End)
    requires ErrorsWithin(d) && Total(Later(d)) < MOD64 - 2
    ensures Total(AfterComplete(d, e).mem)
            == Total(d.mem) + if e.recordable && e.f.outcome == Done && Readable(d, EntryOf(e), e.f) then 1 else 0
    ensures AfterComplete(d, e).mem.sequence == d.mem.sequence
  {
    hide Readable, Batch, Total, Lead;
    CompleteCounts(d, e);
    if e.recordable { RecordTotals(d, EntryOf(e), e.f); }
  }

  lemma RefusedReadable(d: Disk, b: Begin)
    ensures Readable(d, EntryOf(End(b.op, true, [], b.recordable, b.payload, b.f)), b.f)
  {
    assert VersionKeys([]) == {};
  }

  lemma StepAccounts(s: Service, step: Step)
    requires Bracketed(s) && Enabled(s, step) && s.disk.mem.sequence < MOD64 - 2 && !step.Crash?
    ensures Missing(Next(s, step)) == Missing(s) + if Unrecorded(s, step) then 1 else 0
  {
    hide AfterComplete, Tracks, Later, AfterNextID, ErrorsWithin, Total, LooksOnly, Mutates, Readable;
    match step {
      case BeginStep(b) =>
        var d := AfterNextID(s.disk, b.id);
        NextIDBrackets(s.disk, b.id);
        MutatesExactly(b.op);
        RefusedReadable(d, b);
        CompleteAccounts(d, End(b.op, true, [], b.recordable, b.payload, b.f));
      case EndStep(e) => CompleteAccounts(s.disk, e);
    }
  }

  /** Every ID is accounted for: over any run without a crash, through store failures of every kind, the sequence is the
      sum of the counters, the operations still running, and exactly the operations that left no record. */
  lemma {:induction false} IDsAccounted(states: seq<Service>, steps: seq<Step>, k: nat)
    requires IsRun(states, steps) && Bracketed(states[0]) && k < |states|
    requires states[0].disk.mem.sequence + |steps| < MOD64 - 2 && forall i :: 0 <= i < k ==> !steps[i].Crash?
    ensures Missing(states[k]) == Missing(states[0]) + UnrecordedIn(states, steps, k)
  {
    hide Bracketed, Next, Enabled, Unrecorded, Missing;
    if k > 0 {
      var i := k - 1;
      IDsAccounted(states, steps, i);
      CountersWithinSequence(states, steps, i);
      assert Enabled(states[i], steps[i]) && states[i + 1] == Next(states[i], steps[i]);
      StepAccounts(states[i], steps[i]);
    }
  }

  // ---------------------------------------------------------------------------------------------
  // Read-only services

  /** Over every run of a read-only service nothing else is ever running. */
  lemma {:induction false} ReadOnlyNeverMutates(states: seq<Service>, steps: seq<Step>, k: nat)
    requires IsRun(states, steps) && states[0].readOnly && k < |states|
    requires forall op :: op in states[0].pending ==> LooksOnly(op)
    ensures states[k].readOnly && forall op :: op in states[k].pending ==> LooksOnly(op)
  {
    hide AfterComplete, AfterNextID, LooksOnly, Mutates;
    if k > 0 {
      ReadOnlyNeverMutates(states, steps, k - 1);
      var i := k - 1;
      assert Enabled(states[i], steps[i]) && states[i + 1] == Next(states[i], steps[i]);
      if steps[i].BeginStep? { MutatesExactly(steps[i].b.op); }
    }
  }

  /** Identities and versions of paths, as stored. */
  function PathEntries(store: Values): Values { map k | k in store && (k.QIDKey? || k.VersionKey?) :: store[k] }

  /** Completions name changed paths only for operations that may change files. */
  ghost predicate HonestPaths(steps: seq<Step>) {
    forall i :: 0 <= i < |steps| && steps[i].EndStep? && steps[i].e.paths != [] ==> !LooksOnly(steps[i].e.op)
  }

  lemma CompleteKeepsPaths(d: Disk, e: End)
    requires e.failed || e.paths == []
    ensures PathEntries(AfterComplete(d, e).store) == PathEntries(d.store)
  {
    hide Batch, Readable;
    var entry := EntryOf(e);
    if Readable(d, entry, e.f) { BatchWithoutPaths(d, entry, e.f); }
  }

  lemma BatchWithoutPaths(d: Disk, e: Entry, f: Faults)
    requires e.paths == [] && Readable(d, e, f)
    ensures forall k :: k in Batch(d, e, f) ==> !k.QIDKey? && !k.VersionKey?
  {
    hide Count, Inc64;
    assert VersionKeys([]) == {};
  }

  /** A crash before state `k` found the store erased. */
  ghost predicate Lost(states: seq<Service>, steps: seq<Step>, k: nat)
    requires k <= |steps| <= |states|
  {
    exists i :: 0 <= i < k && steps[i].Crash? && states[i].disk.erased
  }

  /** In every run of a read-only service no path's stored identity or version changes, through store failures and
      crashes, as long as completions name changed paths only for operations that may change files; they are only all
      gone if a crash finds the store erased. */
  lemma {:induction false} ReadOnlyKeepsVersions(states: seq<Service>, steps: seq<Step>, k: nat)
    requires IsRun(states, steps) && states[0].readOnly && states[0].pending == multiset{} && k < |states|
    requires HonestPaths(steps)
    ensures PathEntries(states[k].disk.store) ==
              if Lost(states, steps, k) then map[] else PathEntries(states[0].disk.store)
  {
    hide PathEntries, LooksOnly, Next, Enabled;
    if k > 0 {
      ReadOnlyKeepsVersions(states, steps, k - 1);
      var i := k - 1;
      ReadOnlyNeverMutates(states, steps, i);
      assert Enabled(states[i], steps[i]) && states[i + 1] == Next(states[i], steps[i]);
      StepKeepsPaths(states[i], steps[i]);
    }
  }

  lemma StepKeepsPaths(s: Service, step: Step)
    requires Enabled(s, step) && (forall op :: op in s.pending ==> LooksOnly(op))
    requires step.EndStep? && step.e.paths != [] ==> !LooksOnly(step.e.op)
    ensures PathEntries(Next(s, step).disk.store)
            == if step.Crash? && s.disk.erased then map[] else PathEntries(s.disk.store)
  {
    hide AfterComplete, Admits, PathEntries, LooksOnly, AfterNextID, Loaded, Loadable;
    match step {
      case BeginStep(b) =>
        IDKeepsPaths(s.disk, b.id);
        CompleteKeepsPaths(AfterNextID(s.disk, b.id), End(b.op, true, [], b.recordable, b.payload, b.f));
      case EndStep(e) => CompleteKeepsPaths(s.disk, e);
      case Crash => NoPaths();
    }
  }

  lemma NoPaths()
    ensures PathEntries(map[]) == map[]
  {}

  lemma IDKeepsPaths(d: Disk, w: Outcome)
    ensures PathEntries(AfterNextID(d, w).store) == PathEntries(d.store)
  {}
}
