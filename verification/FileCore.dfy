/** The durable metadata core of the file service: counters and versions kept in memory and in a store, through store
    failures and restarts. */
module FileCore {
  import opened Results
  import opened Numbers
  import opened Text

  const MAX32 := 0xFFFF_FFFF

  type U32 = n: nat | n <= MAX32

  datatype Operation =
    | Attach | Walk | Open | Create | Read | Write | Clunk | Remove | Stat | ReadDir
    | PrepareReplace | CommitReplace | AbortReplace

  const ALL_OPERATIONS := [Attach, Walk, Open, Create, Read, Write, Clunk, Remove, Stat, ReadDir,
                           PrepareReplace, CommitReplace, AbortReplace]

  /** Store keys; hashed path keys are the paths themselves. */
  datatype Key =
    | SequenceKey | ErrorsKey | CounterKey(op: Operation) | LastEventKey
    | QIDKey(path: string) | VersionKey(path: string)

  /** Stored bytes: eight, four or twelve bytes read as numbers, or anything else. */
  datatype Value = V8(n: U64) | V4(v: U32) | V12(path: U64, version: U32) | Raw(text: string)

  type Values = map<Key, Value>

  /** What the core keeps in memory. */
  datatype Memory = Memory(sequence: U64, counts: map<Operation, U64>, errors: U64)

  /** A version after one more mutation: it wraps past the largest `uint32` to 1, never to 0. */
  function Bump(v: U32): U32 { if v == MAX32 then 1 else v + 1 }

  /** `canonicalRelative`. */
  function CanonicalRelative(value: string): string {
    var v := TrimSpace(ReplaceChar(value, '\\', '/'));
    var w := if v != "" && v[0] == '/' then v[1..] else v;
    if w == "." then "" else w
  }

  /** The path behind a key: callers canonicalise it and the key function does so again. */
  function KeyPath(raw: string): string { CanonicalRelative(CanonicalRelative(raw)) }

  // ---------------------------------------------------------------------------------------------
  // Loading

  predicate Loadable(s: Values) {
    && (SequenceKey in s ==> s[SequenceKey].V8?) && (ErrorsKey in s ==> s[ErrorsKey].V8?)
    && forall op :: CounterKey(op) in s ==> s[CounterKey(op)].V8?
  }

  /** What a core started on these values holds. */
  function Loaded(s: Values): Memory
    requires Loadable(s)
  {
    Memory(if SequenceKey in s then s[SequenceKey].n else 0,
           map op: Operation | CounterKey(op) in s :: s[CounterKey(op)].n,
           if ErrorsKey in s then s[ErrorsKey].n else 0)
  }

  /** `NewCore` over a store that answers every read. */
  method NewCore(s: Values) returns (r: Option<Memory>)
    ensures r.Some? <==> Loadable(s)
    ensures r.Some? ==> r.value == Loaded(s)
  {
    var sequence: U64, errors: U64 := 0, 0;
    if SequenceKey in s {
      if !s[SequenceKey].V8? { return None; }
      sequence := s[SequenceKey].n;
    }
    var counts: map<Operation, U64> := map[];
    for i := 0 to |ALL_OPERATIONS|
      invariant forall j :: 0 <= j < i ==> CounterKey(ALL_OPERATIONS[j]) in s ==> s[CounterKey(ALL_OPERATIONS[j])].V8?
      invariant forall op :: op in counts <==> op in ALL_OPERATIONS[..i] && CounterKey(op) in s
      invariant forall op :: op in counts ==> s[CounterKey(op)] == V8(counts[op])
    {
      var key := CounterKey(ALL_OPERATIONS[i]);
      if key in s {
        if !s[key].V8? { return None; }
        counts := counts[ALL_OPERATIONS[i] := s[key].n];
      }
    }
    AllListed();
    if ErrorsKey in s {
      if !s[ErrorsKey].V8? { return None; }
      errors := s[ErrorsKey].n;
    }
    forall op | CounterKey(op) in s ensures s[CounterKey(op)].V8? {
      assert op in ALL_OPERATIONS;
    }
    r := Some(Memory(sequence, counts, errors));
    assert counts == Loaded(s).counts;
  }

  lemma AllListed()
    ensures forall op: Operation :: op in ALL_OPERATIONS
    ensures ALL_OPERATIONS[..|ALL_OPERATIONS|] == ALL_OPERATIONS
  {
    forall op: Operation ensures op in ALL_OPERATIONS {
      match op
      case Attach => assert ALL_OPERATIONS[0] == op;
      case Walk => assert ALL_OPERATIONS[1] == op;
      case Open => assert ALL_OPERATIONS[2] == op;
      case Create => assert ALL_OPERATIONS[3] == op;
      case Read => assert ALL_OPERATIONS[4] == op;
      case Write => assert ALL_OPERATIONS[5] == op;
      case Clunk => assert ALL_OPERATIONS[6] == op;
      case Remove => assert ALL_OPERATIONS[7] == op;
      case Stat => assert ALL_OPERATIONS[8] == op;
      case ReadDir => assert ALL_OPERATIONS[9] == op;
      case PrepareReplace => assert ALL_OPERATIONS[10] == op;
      case CommitReplace => assert ALL_OPERATIONS[11] == op;
      case AbortReplace => assert ALL_OPERATIONS[12] == op;
    }
  }

  // ---------------------------------------------------------------------------------------------
  // Operations on memory and store

  /** What becomes of a batch: stored; refused; stored although a failure is reported; or not stored, while what a
      restart would read is lost, as when a file is removed before a rename that then fails. */
  datatype Outcome = Done | Refused | Unconfirmed | Erased

  /** The memory, what the store answers to reads, whether a restart would find it empty, and, as history, which keys
      were last stored by a write that was reported as failed. */
  datatype Disk = Disk(mem: Memory, store: Values, erased: bool, ahead: set<Key>)

  /** How the store answers: what becomes of the batch, which is written as a whole, and which keys cannot be read. */
  datatype Faults = Faults(outcome: Outcome, unreadable: set<Key>)

  /** What a restart reads. */
  function Saved(d: Disk): Values { if d.erased then map[] else d.store }

  function Restarted(d: Disk): Disk
    requires Loadable(Saved(d))
  {
    Disk(Loaded(Saved(d)), Saved(d), false, {})
  }

  function Put(d: Disk, batch: Values, w: Outcome): Disk {
    match w
    case Done => d.(store := d.store + batch, erased := false)
    case Unconfirmed => d.(store := d.store + batch, erased := false)
    case Refused => d
    case Erased => d.(erased := true)
  }

  /** Which keys are ahead of the memory after a write of `keys`. */
  function Ahead(ahead: set<Key>, keys: set<Key>, w: Outcome): set<Key> {
    match w
    case Done => ahead - keys
    case Unconfirmed => ahead + keys
    case _ => ahead
  }

  function AfterNextID(d: Disk, w: Outcome): Disk {
    var id := Inc64(d.mem.sequence);
    var t := Put(d, map[SequenceKey := V8(id)], w).(ahead := Ahead(d.ahead, {SequenceKey}, w));
    if w == Done then t.(mem := d.mem.(sequence := id)) else t
  }

  /** The stored version of a path: absent counts as 0, another width or a failed read as an error. */
  function StoredVersion(s: Values, key: Key, f: Faults): Option<U32> {
    if key in f.unreadable then None
    else if key !in s then Some(0)
    else if s[key].V4? then Some(s[key].v)
    else None
  }

  function Max32(a: U32, b: U32): U32 { if a < b then b else a }

  /** `ObserveQID`. */
  function AfterObserve(d: Disk, raw: string, path: U64, version: U32, f: Faults): Disk {
    var key := VersionKey(KeyPath(raw));
    var current := StoredVersion(d.store, key, f);
    if path == 0 || current.None? then d
    else
      var v := Max32(1, Max32(current.value, version));
      Put(d, map[QIDKey(KeyPath(raw)) := V12(path, version), key := V4(v)], f.outcome)
  }

  /** An operation's record: its kind, whether it ended in an error, and the paths it changed. */
  datatype Entry = Entry(op: Operation, failed: bool, paths: seq<string>, payload: string)

  function VersionKeys(paths: seq<string>): set<Key> { set p | p in paths :: VersionKey(KeyPath(p)) }

  function Count(m: Memory, op: Operation): U64 { if op in m.counts then m.counts[op] else 0 }

  /** The stored versions of the paths can be read, so that the batch is written. */
  predicate Readable(d: Disk, e: Entry, f: Faults) {
    forall k :: k in VersionKeys(e.paths) ==> StoredVersion(d.store, k, f).Some?
  }

  predicate Recorded(d: Disk, e: Entry, f: Faults) { f.outcome == Done && Readable(d, e, f) }

  /** What `Record` writes. */
  function Batch(d: Disk, e: Entry, f: Faults): Values
    requires Readable(d, e, f)
  {
    map[CounterKey(e.op) := V8(Inc64(Count(d.mem, e.op))), LastEventKey := Raw(e.payload)]
    + (if e.failed then map[ErrorsKey := V8(Inc64(d.mem.errors))] else map[])
    + (map k | k in VersionKeys(e.paths) :: V4(Bump(StoredVersion(d.store, k, f).value)))
  }

  /** The keys of a record that the memory mirrors. */
  function Mirrored(e: Entry): set<Key> { {CounterKey(e.op)} + if e.failed then {ErrorsKey} else {} }

  function CountedOnce(m: Memory, e: Entry): Memory {
    m.(counts := m.counts[e.op := Inc64(Count(m, e.op))], errors := if e.failed then Inc64(m.errors) else m.errors)
  }

  /** `Record` of a normalised event. */
  function AfterRecord(d: Disk, e: Entry, f: Faults): Disk {
    if !Readable(d, e, f) then d
    else
      var t := Put(d, Batch(d, e, f), f.outcome).(ahead := Ahead(d.ahead, Mirrored(e), f.outcome));
      if f.outcome == Done then t.(mem := CountedOnce(d.mem, e)) else t
  }

  predicate Observed(s: Values, raw: string, f: Faults) {
    var key := QIDKey(KeyPath(raw));
    key !in f.unreadable && key in s && s[key].V12?
  }

  /** The version `QID` reports: the observed or modification version, raised to the stored one. */
  function QIDVersion(s: Values, raw: string, modified: U32, f: Faults): U32 {
    var base := if Observed(s, raw, f) then s[QIDKey(KeyPath(raw))].version else modified;
    var stored := StoredVersion(s, VersionKey(KeyPath(raw)), f);
    if stored.None? then base
    else if VersionKey(KeyPath(raw)) in s then Max32(base, stored.value)
    else Max32(1, base)
  }

  /** `QID` remembers the version of a path it sees for the first time. */
  function AfterQID(d: Disk, raw: string, modified: U32, f: Faults): Disk {
    var key := VersionKey(KeyPath(raw));
    if key in d.store || key in f.unreadable then d
    else Put(d, map[key := V4(QIDVersion(d.store, raw, modified, f))], f.outcome)
  }

  class Core {
    var store: Values
    var erased: bool
    var sequence: U64
    var counts: map<Operation, U64>
    var errors: U64
    ghost var ahead: set<Key>

    ghost function State(): Disk
      reads this
    {
      Disk(Memory(sequence, counts, errors), store, erased, ahead)
    }

    constructor (store: Values, mem: Memory)
      ensures State() == Disk(mem, store, false, {})
    {
      this.store, this.erased := store, false;
      this.sequence, this.counts, this.errors, this.ahead := mem.sequence, mem.counts, mem.errors, {};
    }

    /** The store's side of a write. */
    method Write(batch: Values, w: Outcome) returns (ok: bool)
      modifies this`store, this`erased
      ensures State() == Put(old(State()), batch, w) && ok == (w == Done)
    {
      if w == Done || w == Unconfirmed {
        store, erased := store + batch, false;
      } else if w == Erased {
        erased := true;
      }
      return w == Done;
    }

    method NextID(w: Outcome) returns (id: Option<U64>)
      modifies this
      ensures State() == AfterNextID(old(State()), w)
      ensures id == if w == Done then Some(sequence) else None
    {
      sequence := (sequence + 1) % MOD64;
      ahead := Ahead(ahead, {SequenceKey}, w);
      var ok := Write(map[SequenceKey := V8(sequence)], w);
      if !ok {
        sequence := (sequence + MOD64 - 1) % MOD64;
        return None;
      }
      return Some(sequence);
    }

    method ObserveQID(relative: string, path: U64, version: U32, f: Faults) returns (ok: bool)
      modifies this
      ensures State() == AfterObserve(old(State()), relative, path, version, f)
      ensures ok <==> path != 0 && f.outcome == Done
                      && StoredVersion(old(store), VersionKey(KeyPath(relative)), f).Some?
    {
      hide KeyPath, Put;
      if path == 0 { return false; }
      var key := VersionKey(KeyPath(relative));
      var current := StoredVersion(store, key, f);
      if current.None? { return false; }
      var v := current.value;
      if v < version { v := version; }
      if v == 0 { v := 1; }
      ok := Write(map[QIDKey(KeyPath(relative)) := V12(path, version), key := V4(v)], f.outcome);
    }

    /** The path identity and version reported for a file; `stable` is the hash of its path, `modified` its
        modification time (0 without file information). */
    method QID(relative: string, stable: U64, modified: U32, f: Faults) returns (path: U64, version: U32)
      modifies this
      ensures version == QIDVersion(old(store), relative, modified, f)
      ensures path == QIDPath(old(store), relative, stable, f)
      ensures State() == AfterQID(old(State()), relative, modified, f)
    {
      hide KeyPath, Put;
      path, version := stable, modified;
      var observed, key := QIDKey(KeyPath(relative)), VersionKey(KeyPath(relative));
      if observed !in f.unreadable && observed in store && store[observed].V12? {
        path, version := store[observed].path, store[observed].version;
      }
      if key !in f.unreadable {
        if key in store {
          if store[key].V4? && store[key].v > version { version := store[key].v; }
        } else {
          if version == 0 { version := 1; }
          var _ := Write(map[key := V4(version)], f.outcome);
        }
      }
    }

    method Record(e: Entry, f: Faults) returns (ok: bool)
      modifies this
      ensures ok <==> Recorded(old(State()), e, f)
      ensures State() == AfterRecord(old(State()), e, f)
    {
      hide KeyPath, VersionKeys, Count, Put;
      ghost var d := State();
      var mem := Memory(sequence, counts, errors);
      var newCount := Inc64(Count(mem, e.op));
      var newErrors := errors;
      var batch: Values := map[CounterKey(e.op) := V8(newCount), LastEventKey := Raw(e.payload)];
      if e.failed {
        newErrors := Inc64(errors);
        batch := batch + map[ErrorsKey := V8(newErrors)];
      }
      var versions := BumpedVersions(store, e.paths, f);
      if versions.None? { return false; }
      batch := batch + versions.value;
      assert batch == Batch(d, e, f);
      ok := Write(batch, f.outcome);
      ahead := Ahead(ahead, Mirrored(e), f.outcome);
      if ok {
        counts := counts[e.op := newCount];
        errors := newErrors;
      }
    }
  }

  /** The next versions of the mutated paths; a path named twice is read twice and raised once. */
  method BumpedVersions(store: Values, paths: seq<string>, f: Faults) returns (r: Option<Values>)
    ensures r.Some? <==> forall k :: k in VersionKeys(paths) ==> StoredVersion(store, k, f).Some?
    ensures r.Some? ==> r.value == map k | k in VersionKeys(paths) :: V4(Bump(StoredVersion(store, k, f).value))
  {
    hide KeyPath, StoredVersion;
    var out: Values := map[];
    for i := 0 to |paths|
      invariant out.Keys == VersionKeys(paths[..i])
      invariant forall k :: k in out ==>
                            StoredVersion(store, k, f).Some? && out[k] == V4(Bump(StoredVersion(store, k, f).value))
    {
      var key := VersionKey(KeyPath(paths[i]));
      KeysGrow(paths, i);
      var current := StoredVersion(store, key, f);
      if current.None? { return None; }
      out := out[key := V4(Bump(current.value))];
    }
    assert paths[..|paths|] == paths;
    return Some(out);
  }

  lemma KeysGrow(paths: seq<string>, i: nat)
    requires i < |paths|
    ensures VersionKeys(paths[..i + 1]) == VersionKeys(paths[..i]) + {VersionKey(KeyPath(paths[i]))}
    ensures VersionKey(KeyPath(paths[i])) in VersionKeys(paths)
  {
    hide KeyPath;
    assert paths[..i + 1] == paths[..i] + [paths[i]];
  }

  // ---------------------------------------------------------------------------------------------
  // Memory against store

  const ZERO := Memory(0, map[], 0)

  /** The key holds the number, or is missing when it is 0; where it is ahead it holds one more. */
  predicate Keeps(s: Values, key: Key, n: U64, ahead: bool) {
    if ahead then key in s && s[key] == V8(Inc64(n)) else if key in s then s[key] == V8(n) else n == 0
  }

  /** The store holds the memory, one step further at the keys that are ahead. */
  ghost predicate Tracks(d: Disk) {
    && Keeps(d.store, SequenceKey, d.mem.sequence, SequenceKey in d.ahead)
    && Keeps(d.store, ErrorsKey, d.mem.errors, ErrorsKey in d.ahead)
    && (forall op: Operation ::
          && Keeps(d.store, CounterKey(op), Count(d.mem, op), CounterKey(op) in d.ahead)
          && (CounterKey(op) !in d.ahead ==> (CounterKey(op) in d.store <==> op in d.mem.counts)))
    && forall k :: k in d.ahead ==> k == SequenceKey || k == ErrorsKey || k.CounterKey?
  }

  /** The memory a restart would load from such a store. */
  function Lead(m: Memory, ahead: set<Key>): Memory {
    Memory(if SequenceKey in ahead then Inc64(m.sequence) else m.sequence,
           map op: Operation | op in m.counts || CounterKey(op) in ahead ::
             if CounterKey(op) in ahead then Inc64(Count(m, op)) else m.counts[op],
           if ErrorsKey in ahead then Inc64(m.errors) else m.errors)
  }

  lemma TracksMeans(d: Disk)
    requires Tracks(d)
    ensures Loadable(d.store) && Loaded(d.store) == Lead(d.mem, d.ahead)
  {
    hide Inc64;
    var l := Loaded(d.store).counts;
    forall op: Operation
      ensures op in l <==> op in Lead(d.mem, d.ahead).counts
      ensures op in l ==> l[op] == Lead(d.mem, d.ahead).counts[op]
    {
      assert Keeps(d.store, CounterKey(op), Count(d.mem, op), CounterKey(op) in d.ahead);
    }
  }

  /** Nothing is ahead exactly when a step further is no step at all. */
  lemma LeadExact(d: Disk)
    requires Tracks(d)
    ensures Lead(d.mem, d.ahead) == d.mem <==> d.ahead == {}
  {
    if d.ahead == {} {
      assert Lead(d.mem, {}).counts == d.mem.counts;
    } else {
      var k :| k in d.ahead;
      IncMoves(d.mem.sequence);
      IncMoves(d.mem.errors);
      if k.CounterKey? {
        IncMoves(Count(d.mem, k.op));
        assert Lead(d.mem, d.ahead).counts[k.op] == Inc64(Count(d.mem, k.op));
        CountOf(Lead(d.mem, d.ahead), k.op);
      }
    }
  }

  lemma IncMoves(n: U64)
    ensures Inc64(n) != n
  {}

  lemma CountOf(m: Memory, op: Operation)
    ensures op in m.counts ==> Count(m, op) == m.counts[op]
  {}

  lemma LoadTracks(s: Values)
    requires Loadable(s)
    ensures Tracks(Disk(Loaded(s), s, false, {}))
  {}

  lemma NextIDTracks(d: Disk, w: Outcome)
    requires Tracks(d)
    ensures Tracks(AfterNextID(d, w))
  {
    hide Inc64;
    var t := AfterNextID(d, w);
    forall op: Operation ensures CounterKey(op) in t.store <==> CounterKey(op) in d.store {}
  }

  /** Writes that leave mirrored keys alone keep the store on the memory's track. */
  lemma PutTracks(d: Disk, batch: Values, w: Outcome)
    requires Tracks(d) && forall k :: k in batch ==> k.QIDKey? || k.VersionKey?
    ensures Tracks(Put(d, batch, w))
  {
    hide Inc64, Count;
  }

  lemma BatchFacts(d: Disk, e: Entry, f: Faults, op: Operation)
    requires Readable(d, e, f)
    ensures var b := Batch(d, e, f);
            && SequenceKey !in b && (ErrorsKey in b <==> e.failed) && (CounterKey(op) in b <==> op == e.op)
            && (e.failed ==> b[ErrorsKey] == V8(Inc64(d.mem.errors))) && CounterKey(e.op) in b
            && b[CounterKey(e.op)] == V8(Inc64(Count(d.mem, e.op)))
  {
    hide KeyPath, Count;
  }

  lemma RecordTracks(d: Disk, e: Entry, f: Faults)
    requires Tracks(d)
    ensures Tracks(AfterRecord(d, e, f))
  {
    hide Batch, Readable, Inc64;
    if Readable(d, e, f) {
      BatchFacts(d, e, f, e.op);
      var t := AfterRecord(d, e, f);
      forall op: Operation
        ensures Keeps(t.store, CounterKey(op), Count(t.mem, op), CounterKey(op) in t.ahead)
        ensures CounterKey(op) !in t.ahead ==> (CounterKey(op) in t.store <==> op in t.mem.counts)
      {
        CounterTracks(d, e, f, op);
      }
      hide Count;
    }
  }

  lemma CounterTracks(d: Disk, e: Entry, f: Faults, op: Operation)
    requires Tracks(d) && Readable(d, e, f)
    ensures var t := AfterRecord(d, e, f);
            && Keeps(t.store, CounterKey(op), Count(t.mem, op), CounterKey(op) in t.ahead)
            && (CounterKey(op) !in t.ahead ==> (CounterKey(op) in t.store <==> op in t.mem.counts))
  {
    hide Batch, Readable, Inc64, Tracks;
    BatchFacts(d, e, f, op);
    TracksCounter(d, op);
  }

  lemma TracksCounter(d: Disk, op: Operation)
    requires Tracks(d)
    ensures Keeps(d.store, CounterKey(op), Count(d.mem, op), CounterKey(op) in d.ahead)
    ensures CounterKey(op) !in d.ahead ==> (CounterKey(op) in d.store <==> op in d.mem.counts)
  {}

  // ---------------------------------------------------------------------------------------------
  // Runs with failures and restarts

  /** A service that is up or down, its memory and store, and the operation IDs handed out so far. */
  datatype System = System(up: bool, disk: Disk, ids: seq<U64>)

  datatype Step =
    | NextIDStep(w: Outcome)
    | ObserveStep(raw: string, path: U64, version: U32, f: Faults)
    | QIDStep(raw: string, modified: U32, f: Faults)
    | RecordStep(entry: Entry, f: Faults)
    | RestartStep(readable: bool)

  /** A process that ended leaves what a restart reads. */
  function Ended(d: Disk): Disk { Disk(ZERO, Saved(d), false, {}) }

  function Next(s: System, step: Step): System {
    if step.RestartStep? then
      if step.readable && Loadable(Saved(s.disk)) then s.(up := true, disk := Restarted(s.disk))
      else s.(up := false, disk := Ended(s.disk))
    else if !s.up then s
    else
      match step
      case NextIDStep(w) =>
        var t := s.(disk := AfterNextID(s.disk, w));
        if w == Done then t.(ids := s.ids + [t.disk.mem.sequence]) else t
      case ObserveStep(raw, path, version, f) => s.(disk := AfterObserve(s.disk, raw, path, version, f))
      case QIDStep(raw, modified, f) => s.(disk := AfterQID(s.disk, raw, modified, f))
      case RecordStep(e, f) => s.(disk := AfterRecord(s.disk, e, f))
  }

  /** A run of a service over a store that holds `start`. */
  function Run(start: Values, steps: seq<Step>): System {
    if steps == [] then System(false, Disk(ZERO, start, false, {}), [])
    else Next(Run(start, steps[..|steps| - 1]), steps[|steps| - 1])
  }

  /** What every step keeps. */
  ghost predicate Sound(s: System) { Loadable(s.disk.store) && (s.up ==> Tracks(s.disk)) && (!s.up ==> !s.disk.erased) }

  lemma StepSound(s: System, step: Step)
    requires Sound(s)
    ensures Sound(Next(s, step))
  {
    hide KeyPath, AfterRecord, Tracks, Loadable, Loaded, AfterNextID, Put;
    EmptyLoads();
    var t := Next(s, step);
    if step.RestartStep? {
      if t.up { LoadTracks(Saved(s.disk)); }
    } else if s.up {
      match step {
        case NextIDStep(w) => NextIDTracks(s.disk, w);
        case ObserveStep(raw, path, version, f) => ObserveTracks(s.disk, raw, path, version, f);
        case QIDStep(raw, modified, f) => QIDTracks(s.disk, raw, modified, f);
        case RecordStep(e, f) => RecordTracks(s.disk, e, f);
      }
      TracksMeans(t.disk);
    }
  }

  lemma ObserveTracks(d: Disk, raw: string, path: U64, version: U32, f: Faults)
    requires Tracks(d)
    ensures Tracks(AfterObserve(d, raw, path, version, f))
  {
    hide KeyPath, Tracks, Put;
    var key, current := VersionKey(KeyPath(raw)), StoredVersion(d.store, VersionKey(KeyPath(raw)), f);
    if path != 0 && current.Some? {
      var v := Max32(1, Max32(current.value, version));
      PutTracks(d, map[QIDKey(KeyPath(raw)) := V12(path, version), key := V4(v)], f.outcome);
    }
  }

  lemma QIDTracks(d: Disk, raw: string, modified: U32, f: Faults)
    requires Tracks(d)
    ensures Tracks(AfterQID(d, raw, modified, f))
  {
    hide KeyPath, Tracks, Put, QIDVersion;
    PutTracks(d, map[VersionKey(KeyPath(raw)) := V4(QIDVersion(d.store, raw, modified, f))], f.outcome);
  }

  lemma EmptyLoads()
    ensures Loadable(map[]) && Loaded(map[]) == ZERO
  {}

  lemma {:induction false} RunSound(start: Values, steps: seq<Step>)
    requires Loadable(start)
    ensures Sound(Run(start, steps))
  {
    hide Next, Loadable, Tracks;
    if steps != [] {
      RunSound(start, steps[..|steps| - 1]);
      StepSound(Run(start, steps[..|steps| - 1]), steps[|steps| - 1]);
    }
  }

  /** Over any loadable store, through any store failures and restarts, a service can always be restarted; a running one
      holds in memory exactly what it would then load if and only if nothing is ahead, which is to say that the last
      write stored for each key was confirmed, and the store was not erased since it was last written (or the memory is
      still empty). */
  lemma MemoryIsDurable(start: Values, steps: seq<Step>)
    requires Loadable(start)
    ensures var s := Run(start, steps);
            && Loadable(Saved(s.disk))
            && (s.up ==> (s.disk.mem == Loaded(Saved(s.disk)) <==>
                            if s.disk.erased then s.disk.mem == ZERO else s.disk.ahead == {}))
  {
    hide Run, Loadable, Loaded, Lead, Tracks;
    EmptyLoads();
    RunSound(start, steps);
    var s := Run(start, steps);
    if s.up {
      TracksMeans(s.disk);
      LeadExact(s.disk);
    }
  }

  function OutcomeOf(step: Step): Outcome {
    match step
    case NextIDStep(w) => w
    case RestartStep(_) => Done
    case _ => step.f.outcome
  }

  /** The store tells the truth: a write that it reports as failed changed nothing. */
  predicate Truthful(steps: seq<Step>) {
    forall i :: 0 <= i < |steps| ==> OutcomeOf(steps[i]) == Done || OutcomeOf(steps[i]) == Refused
  }

  /** Over such a store the memory is always what would be loaded. */
  lemma {:induction false} TruthfulIsDurable(start: Values, steps: seq<Step>)
    requires Loadable(start) && Truthful(steps)
    ensures var s := Run(start, steps);
            && !s.disk.erased && s.disk.ahead == {}
            && (s.up ==> Loadable(s.disk.store) && s.disk.mem == Loaded(s.disk.store))
  {
    hide Loadable, Loaded, Sound, AfterRecord, AfterObserve, AfterQID, Tracks;
    MemoryIsDurable(start, steps);
    if steps != [] {
      var n := |steps| - 1;
      TruthfulIsDurable(start, steps[..n]);
      var s := Run(start, steps[..n]);
      assert OutcomeOf(steps[n]) == Done || OutcomeOf(steps[n]) == Refused;
      KeepsLevel(s.disk, steps[n]);
    }
  }

  lemma KeepsLevel(d: Disk, step: Step)
    requires !d.erased && d.ahead == {} && (OutcomeOf(step) == Done || OutcomeOf(step) == Refused)
    ensures step.NextIDStep? ==> !AfterNextID(d, step.w).erased && AfterNextID(d, step.w).ahead == {}
    ensures step.ObserveStep? ==>
              var t := AfterObserve(d, step.raw, step.path, step.version, step.f); !t.erased && t.ahead == {}
    ensures step.QIDStep? ==> var t := AfterQID(d, step.raw, step.modified, step.f); !t.erased && t.ahead == {}
    ensures step.RecordStep? ==> var t := AfterRecord(d, step.entry, step.f); !t.erased && t.ahead == {}
  {
    hide KeyPath, Batch, Readable, StoredVersion, QIDVersion;
  }

  /** Any record of which the store keeps the batch but reports a failure parts memory and store. */
  lemma UnconfirmedParts(d: Disk, e: Entry, f: Faults)
    requires Tracks(d) && Readable(d, e, f) && f.outcome == Unconfirmed
    ensures var t := AfterRecord(d, e, f); t.mem == d.mem && Loadable(t.store) && Loaded(t.store) != t.mem
  {
    hide Tracks, Batch, Readable, Loadable, Loaded, Lead;
    var t := AfterRecord(d, e, f);
    RecordTracks(d, e, f);
    TracksMeans(t);
    LeadExact(t);
    assert CounterKey(e.op) in t.ahead;
  }

  // ---------------------------------------------------------------------------------------------
  // Operation IDs

  /** The step restarts a service over an erased store, although IDs were handed out. */
  predicate Loses(s: System, step: Step) { step.RestartStep? && s.disk.erased && s.ids != [] }

  ghost predicate NeverLost(start: Values, steps: seq<Step>) {
    forall i :: 0 <= i < |steps| ==> !Loses(Run(start, steps[..i]), steps[i])
  }

  /** The sequence a restart would load. */
  function StoredSequence(s: Values): U64 { if SequenceKey in s && s[SequenceKey].V8? then s[SequenceKey].n else 0 }

  ghost predicate Increasing(ids: seq<U64>, bound: nat) {
    && (forall i, j :: 0 <= i < j < |ids| ==> ids[i] < ids[j])
    && forall i :: 0 <= i < |ids| ==> ids[i] <= bound
  }

  /** Handed-out IDs are below the sequence in memory and in the store. */
  ghost predicate Counting(s: System, limit: nat) {
    && StoredSequence(s.disk.store) <= limit && Increasing(s.ids, StoredSequence(s.disk.store))
    && (s.up ==> Increasing(s.ids, s.disk.mem.sequence) && s.disk.mem.sequence <= StoredSequence(s.disk.store))
  }

  lemma StepCounts(s: System, step: Step, limit: nat)
    requires Sound(s) && Counting(s, limit) && limit + 1 < MOD64 && !Loses(s, step)
    ensures Counting(Next(s, step), limit + 1)
  {
    hide KeyPath, AfterRecord, AfterObserve, AfterQID, AfterNextID, Tracks, Count;
    if step.RestartStep? {
    } else if s.up {
      match step
      case NextIDStep(w) => IDCounts(s.disk, w);
      case ObserveStep(raw, path, version, f) => SequenceStands(s.disk, step);
      case QIDStep(raw, modified, f) => SequenceStands(s.disk, step);
      case RecordStep(e, f) => SequenceStands(s.disk, step);
    }
  }

  lemma IDCounts(d: Disk, w: Outcome)
    requires Tracks(d) && StoredSequence(d.store) < MOD64 - 1 && d.mem.sequence <= StoredSequence(d.store)
    ensures var t := AfterNextID(d, w);
            && StoredSequence(d.store) <= StoredSequence(t.store) <= StoredSequence(d.store) + 1
            && t.mem.sequence == (if w == Done then d.mem.sequence + 1 else d.mem.sequence)
            && t.mem.sequence <= StoredSequence(t.store)
  {
    hide Count;
  }

  lemma SequenceStands(d: Disk, step: Step)
    ensures step.ObserveStep? ==>
              var t := AfterObserve(d, step.raw, step.path, step.version, step.f);
              StoredSequence(t.store) == StoredSequence(d.store) && t.mem == d.mem
    ensures step.QIDStep? ==>
              var t := AfterQID(d, step.raw, step.modified, step.f);
              StoredSequence(t.store) == StoredSequence(d.store) && t.mem == d.mem
    ensures step.RecordStep? ==>
              var t := AfterRecord(d, step.entry, step.f);
              StoredSequence(t.store) == StoredSequence(d.store) && t.mem.sequence == d.mem.sequence
  {
    hide KeyPath, Readable, StoredVersion, QIDVersion, Batch, Inc64;
    if step.RecordStep? && Readable(d, step.entry, step.f) { BatchFacts(d, step.entry, step.f, step.entry.op); }
  }

  /** Through store failures of every kind and restarts, operation IDs strictly increase, until they wrap, as long as no
      restart finds the store erased after an ID was handed out. */
  lemma {:induction false} IDsIncrease(start: Values, steps: seq<Step>)
    requires Loadable(start) && NeverLost(start, steps) && StoredSequence(start) + |steps| < MOD64
    ensures Counting(Run(start, steps), StoredSequence(start) + |steps|)
  {
    hide Next, Loadable, Counting, Sound;
    if steps == [] {
      NoIDs(start);
    } else {
      var n := |steps| - 1;
      forall i | 0 <= i < n ensures !Loses(Run(start, steps[..n][..i]), steps[..n][i]) {
        assert steps[..n][..i] == steps[..i];
      }
      IDsIncrease(start, steps[..n]);
      RunSound(start, steps[..n]);
      StepCounts(Run(start, steps[..n]), steps[n], StoredSequence(start) + n);
    }
  }

  lemma NoIDs(start: Values)
    ensures Counting(Run(start, []), StoredSequence(start))
  {}

  /** Otherwise they start over: after any such restart the next ID is 1, which is no increase; and from any running
      service one write can lead there. */
  lemma ErasedStartsOver(s: System, bound: nat)
    requires s.disk.erased
    ensures var t := Next(Next(s, RestartStep(true)), NextIDStep(Done));
            t.ids == s.ids + [1] && (s.ids != [] && s.ids[0] > 0 ==> !Increasing(t.ids, bound))
    ensures forall r: System :: r.up ==> Next(r, NextIDStep(Erased)).disk.erased
  {
    hide Loadable, Loaded;
    EmptyLoads();
    var t := Next(Next(s, RestartStep(true)), NextIDStep(Done));
    if s.ids != [] && s.ids[0] > 0 {
      assert t.ids[0] == s.ids[0] && t.ids[|s.ids|] == 1;
    }
  }

  lemma RunStep(start: Values, steps: seq<Step>, i: nat)
    requires i < |steps|
    ensures Run(start, steps[..i + 1]) == Next(Run(start, steps[..i]), steps[i])
  {
    hide Next;
    assert steps[..i + 1][..i] == steps[..i];
  }

  /** Over a truthful store the IDs are consecutive, modulo 2^64, across all restarts. */
  lemma {:induction false} IDsConsecutive(start: Values, steps: seq<Step>)
    requires Loadable(start) && Truthful(steps)
    ensures var s := Run(start, steps);
            && StoredSequence(s.disk.store) == (StoredSequence(start) + |s.ids|) % MOD64
            && forall i :: 0 <= i < |s.ids| ==> s.ids[i] == (StoredSequence(start) + i + 1) % MOD64
  {
    hide Next, Loadable, Loaded, Sound, Inc64, StoredSequence;
    if steps == [] {
      assert StoredSequence(start) % MOD64 == StoredSequence(start);
    } else {
      var n := |steps| - 1;
      IDsConsecutive(start, steps[..n]);
      TruthfulIsDurable(start, steps[..n]);
      RunSound(start, steps[..n]);
      assert OutcomeOf(steps[n]) == Done || OutcomeOf(steps[n]) == Refused;
      var s := Run(start, steps[..n]);
      ConsecutiveStep(s, steps[n]);
      IncMod(StoredSequence(start) + |s.ids|);
    }
  }

  lemma IncMod(n: nat)
    ensures Inc64(n % MOD64) == (n + 1) % MOD64
  {}

  lemma ConsecutiveStep(s: System, step: Step)
    requires Sound(s) && !s.disk.erased && s.disk.ahead == {}
    requires OutcomeOf(step) == Done || OutcomeOf(step) == Refused
    ensures var t := Next(s, step);
            if t.ids == s.ids then StoredSequence(t.disk.store) == StoredSequence(s.disk.store)
            else && t.ids == s.ids + [Inc64(StoredSequence(s.disk.store))]
                 && StoredSequence(t.disk.store) == Inc64(StoredSequence(s.disk.store))
  {
    hide KeyPath, AfterRecord, AfterObserve, AfterQID, Loadable, Inc64;
    if s.up { SequenceStands(s.disk, step); }
  }

  // ---------------------------------------------------------------------------------------------
  // Different files

  /** A relative path as it is usually written: forward slashes only, none in front, no outer white space. */
  predicate Plain(p: string) { '\\' !in p && Trimmed(p, IsSpace) && (p == "" || p[0] != '/') && p != "." }

  lemma CanonicalPadded(left: string, s: string, right: string)
    requires AllSpace(left) && AllSpace(right) && '\\' !in s && Trimmed(s, IsSpace)
    ensures CanonicalRelative(left + s + right) == CanonicalRelative(s)
  {
    var all := left + s + right;
    assert '\\' !in all;
    assert ReplaceChar(all, '\\', '/') == all && ReplaceChar(s, '\\', '/') == s;
    TrimPadded(left, s, right);
    TrimSpaceTrimmed(s);
  }

  /** A plain path is its own key, so that different plain paths are different files; one slash in front and white space
      around it make no difference, and the root is written as a dot, a slash or nothing. */
  lemma PlainKey(p: string, left: string, right: string)
    requires Plain(p) && AllSpace(left) && AllSpace(right)
    ensures KeyPath(p) == p && KeyPath(left + p + right) == p && KeyPath(left + ("/" + p) + right) == p
    ensures KeyPath(left + "." + right) == "" && KeyPath("/") == ""
  {
    CanonicalPlain(p);
    CanonicalPadded(left, p, right);
    CanonicalPadded(left, "/" + p, right);
    CanonicalPadded(left, ".", right);
    CanonicalPlain("");
    assert "/" + "" == "/";
  }

  lemma CanonicalPlain(p: string)
    requires '\\' !in p && Trimmed(p, IsSpace) && (p == "" || p[0] != '/') && p != "."
    ensures CanonicalRelative(p) == p && CanonicalRelative("/" + p) == p && CanonicalRelative(".") == ""
  {
    assert ReplaceChar(p, '\\', '/') == p && ReplaceChar("/" + p, '\\', '/') == "/" + p;
    TrimSpaceTrimmed(p);
    TrimSpaceTrimmed("/" + p);
    assert ReplaceChar(".", '\\', '/') == ".";
    TrimSpaceTrimmed(".");
  }

  /** Backslashes are slashes. */
  lemma BackslashKey(raw: string)
    ensures KeyPath(ReplaceChar(raw, '\\', '/')) == KeyPath(raw)
  {
    hide TrimSpace;
    var r := ReplaceChar(raw, '\\', '/');
    assert ReplaceChar(r, '\\', '/') == r;
  }

  /** An observation is what is reported from then on: the identity itself, and a version no lower. */
  lemma ObservedIsReported(d: Disk, raw: string, path: U64, version: U32, f: Faults, stable: U64, modified: U32)
    requires path != 0 && f.outcome == Done && StoredVersion(d.store, VersionKey(KeyPath(raw)), f).Some?
    ensures var s := AfterObserve(d, raw, path, version, f).store;
            && QIDPath(s, raw, stable, NO_FAULTS) == path
            && QIDVersion(s, raw, modified, NO_FAULTS)
               == Max32(1, Max32(version, StoredVersion(d.store, VersionKey(KeyPath(raw)), f).value))
  {
    hide KeyPath;
  }

  /** A path not seen before is reported under its own identity, with its modification time, at least 1, as its version;
      that is stored, and no later report falls below it.  A path with a stored version is left alone. */
  lemma FirstSight(d: Disk, raw: string, stable: U64, modified: U32, later: U32)
    requires QIDKey(KeyPath(raw)) !in d.store
    ensures var s := AfterQID(d, raw, modified, NO_FAULTS).store;
            var v := QIDVersion(d.store, raw, modified, NO_FAULTS);
            && QIDPath(d.store, raw, stable, NO_FAULTS) == stable
            && (VersionKey(KeyPath(raw)) in d.store ==> s == d.store)
            && (VersionKey(KeyPath(raw)) !in d.store ==>
                  v == Max32(1, modified) && VersionKey(KeyPath(raw)) in s && s[VersionKey(KeyPath(raw))] == V4(v)
                  && QIDVersion(s, raw, later, NO_FAULTS) == Max32(later, v))
  {
    hide KeyPath;
  }

  /** The paths that a step names. */
  function Names(step: Step): seq<string> {
    match step
    case ObserveStep(raw, _, _, _) => [raw]
    case QIDStep(raw, _, _) => [raw]
    case RecordStep(e, _) => e.paths
    case _ => []
  }

  /** The identity that `QID` reports. */
  function QIDPath(s: Values, raw: string, stable: U64, f: Faults): U64 {
    if Observed(s, raw, f) then s[QIDKey(KeyPath(raw))].path else stable
  }

  /** Both stores answer alike about one file. */
  ghost predicate SameFile(s: Values, t: Values, key: string) {
    && (QIDKey(key) in s <==> QIDKey(key) in t) && (QIDKey(key) in s ==> s[QIDKey(key)] == t[QIDKey(key)])
    && (VersionKey(key) in s <==> VersionKey(key) in t)
    && (VersionKey(key) in s ==> s[VersionKey(key)] == t[VersionKey(key)])
  }

  lemma StepLeavesFile(s: System, step: Step, key: string)
    requires (forall name :: name in Names(step) ==> KeyPath(name) != key) && (step.RestartStep? ==> !s.disk.erased)
    ensures SameFile(s.disk.store, Next(s, step).disk.store, key)
  {
    hide KeyPath, Loadable, Loaded, Inc64, Count, StoredVersion, QIDVersion;
    if step.ObserveStep? || step.QIDStep? { assert step.raw in Names(step); }
  }

  lemma {:induction false} StepsLeaveFile(start: Values, steps: seq<Step>, more: seq<Step>, key: string)
    requires forall i, name :: 0 <= i < |more| && name in Names(more[i]) ==> KeyPath(name) != key
    requires forall i :: 0 <= i < |more| && more[i].RestartStep? ==> !Run(start, steps + more[..i]).disk.erased
    ensures SameFile(Run(start, steps).disk.store, Run(start, steps + more).disk.store, key)
  {
    hide KeyPath, Next;
    if more == [] {
      assert steps + more == steps;
    } else {
      var n := |more| - 1;
      forall i | 0 <= i < n && more[..n][i].RestartStep? ensures !Run(start, steps + more[..n][..i]).disk.erased {
        assert more[..n][..i] == more[..i];
      }
      StepsLeaveFile(start, steps, more[..n], key);
      assert (steps + more)[..|steps| + n] == steps + more[..n];
      StepLeavesFile(Run(start, steps + more[..n]), more[n], key);
    }
  }

  /** What is reported for a file stands through every further run that names no spelling of it, unless a restart finds
      the store erased. */
  lemma OtherFilesStand(start: Values, steps: seq<Step>, more: seq<Step>, raw: string, stable: U64, modified: U32,
                        f: Faults)
    requires forall i, name :: 0 <= i < |more| && name in Names(more[i]) ==> KeyPath(name) != KeyPath(raw)
    requires forall i :: 0 <= i < |more| && more[i].RestartStep? ==> !Run(start, steps + more[..i]).disk.erased
    ensures var s, t := Run(start, steps).disk.store, Run(start, steps + more).disk.store;
            && QIDPath(s, raw, stable, f) == QIDPath(t, raw, stable, f)
            && QIDVersion(s, raw, modified, f) == QIDVersion(t, raw, modified, f)
  {
    hide KeyPath, Run;
    StepsLeaveFile(start, steps, more, KeyPath(raw));
  }

  /** In particular no call for one plain path changes what is reported for another. */
  lemma PlainPathsApart(start: Values, steps: seq<Step>, step: Step, p: string, q: string, stable: U64, modified: U32,
                        f: Faults)
    requires Plain(p) && Plain(q) && p != q && !step.RestartStep? && forall name :: name in Names(step) ==> name == p
    ensures var s, t := Run(start, steps).disk.store, Run(start, steps + [step]).disk.store;
            && QIDPath(s, q, stable, f) == QIDPath(t, q, stable, f)
            && QIDVersion(s, q, modified, f) == QIDVersion(t, q, modified, f)
  {
    hide KeyPath, Run, QIDVersion, QIDPath, Plain;
    PlainKey(p, "", "");
    PlainKey(q, "", "");
    OtherFilesStand(start, steps, [step], q, stable, modified, f);
  }

  // ---------------------------------------------------------------------------------------------
  // Versions

  /** An observed path has a stored version at least as high as the observed one. */
  ghost predicate Covers(s: Values, p: string) {
    QIDKey(p) in s && s[QIDKey(p)].V12? ==>
      VersionKey(p) in s && s[VersionKey(p)].V4? && s[QIDKey(p)].version <= s[VersionKey(p)].v
  }

  /** The step records a change of a path whose stored version is the largest `uint32`. */
  ghost predicate Wraps(s: System, step: Step, p: string) {
    && step.RecordStep? && VersionKey(p) in VersionKeys(step.entry.paths)
    && VersionKey(p) in s.disk.store && s.disk.store[VersionKey(p)] == V4(MAX32)
  }

  lemma StepCovers(s: System, step: Step, p: string)
    requires Covers(s.disk.store, p) && !Wraps(s, step, p)
    ensures Covers(Next(s, step).disk.store, p)
  {
    hide KeyPath, Loadable, Loaded, Batch, AfterNextID, AfterRecord, AfterObserve, AfterQID;
    if s.up && !step.RestartStep? {
      match step
      case NextIDStep(w) => IDCovers(s.disk, w, p);
      case ObserveStep(raw, path, version, f) => ObserveCovers(s.disk, raw, path, version, f, p);
      case QIDStep(raw, modified, f) => QIDCovers(s.disk, raw, modified, f, p);
      case RecordStep(e, f) => RecordCovers(s.disk, e, f, p);
    }
  }

  lemma IDCovers(d: Disk, w: Outcome, p: string)
    requires Covers(d.store, p)
    ensures Covers(AfterNextID(d, w).store, p)
  {}

  lemma ObserveCovers(d: Disk, raw: string, path: U64, version: U32, f: Faults, p: string)
    requires Covers(d.store, p)
    ensures Covers(AfterObserve(d, raw, path, version, f).store, p)
  {
    hide KeyPath;
  }

  lemma QIDCovers(d: Disk, raw: string, modified: U32, f: Faults, p: string)
    requires Covers(d.store, p)
    ensures Covers(AfterQID(d, raw, modified, f).store, p)
  {
    hide KeyPath;
  }

  lemma RecordCovers(d: Disk, e: Entry, f: Faults, p: string)
    requires Covers(d.store, p)
    requires VersionKey(p) in VersionKeys(e.paths) && VersionKey(p) in d.store ==> d.store[VersionKey(p)] != V4(MAX32)
    ensures Covers(AfterRecord(d, e, f).store, p)
  {
    hide KeyPath, Count, Inc64, VersionKeys;
  }

  lemma {:induction false} RunCovers(start: Values, steps: seq<Step>, p: string)
    requires Covers(start, p) && forall i :: 0 <= i < |steps| ==> !Wraps(Run(start, steps[..i]), steps[i], p)
    ensures Covers(Run(start, steps).disk.store, p)
  {
    hide Next, Wraps;
    if steps != [] {
      var n := |steps| - 1;
      forall i | 0 <= i < n ensures !Wraps(Run(start, steps[..n][..i]), steps[..n][i], p) {
        assert steps[..n][..i] == steps[..i];
      }
      RunCovers(start, steps[..n], p);
      StepCovers(Run(start, steps[..n]), steps[n], p);
    }
  }

  const NO_FAULTS := Faults(Done, {})

  /** The path's own two entries say whether the next record raises what is reported for it: the stored version is not
      below the observed one and can still grow. */
  predicate Rises(s: Values, raw: string)
    requires Observed(s, raw, NO_FAULTS)
  {
    var key := VersionKey(KeyPath(raw));
    key in s && s[key].V4? && s[QIDKey(KeyPath(raw))].version <= s[key].v < MAX32
  }

  /** A stored record naming an observed path, confirmed or not, raises the version reported for it exactly when its
      stored version is not below the observed one and not the largest `uint32`, whatever the store went through. */
  lemma RecordRaisesVersion(d: Disk, e: Entry, f: Faults, raw: string, modified: U32, later: U32)
    requires Observed(d.store, raw, NO_FAULTS) && VersionKey(KeyPath(raw)) in VersionKeys(e.paths)
    requires Readable(d, e, f) && (f.outcome == Done || f.outcome == Unconfirmed)
    ensures QIDVersion(d.store, raw, modified, NO_FAULTS)
            < QIDVersion(AfterRecord(d, e, f).store, raw, later, NO_FAULTS)
       <==> Rises(d.store, raw)
  {
    hide KeyPath, Count, Inc64;
    var key := VersionKey(KeyPath(raw));
    var after := AfterRecord(d, e, f).store;
    assert after[key] == V4(Bump(StoredVersion(d.store, key, f).value));
    assert QIDKey(KeyPath(raw)) in after && after[QIDKey(KeyPath(raw))] == d.store[QIDKey(KeyPath(raw))];
  }

  /** In a run that never wrapped the path's version, that is until the version wraps. */
  lemma RisesUntilWrap(start: Values, steps: seq<Step>, e: Entry, raw: string)
    requires Covers(start, KeyPath(raw))
    requires forall i :: 0 <= i < |steps| ==> !Wraps(Run(start, steps[..i]), steps[i], KeyPath(raw))
    requires Observed(Run(start, steps).disk.store, raw, NO_FAULTS) && VersionKey(KeyPath(raw)) in VersionKeys(e.paths)
    ensures Rises(Run(start, steps).disk.store, raw)
       <==> !Wraps(Run(start, steps), RecordStep(e, NO_FAULTS), KeyPath(raw))
  {
    hide KeyPath, Run;
    RunCovers(start, steps, KeyPath(raw));
  }

  predicate Stores(s: System, key: Key, value: Value) { key in s.disk.store && s.disk.store[key] == value }

  /** After a wrap an observed version can stay above the stored one: a path observed at the largest version and then
      recorded twice is reported at the largest version throughout, although the second record stores version 2. */
  lemma WrappedVersionStands(raw: string, op: Operation)
    ensures var e := Entry(op, false, [raw], "");
            var steps := [RestartStep(true), ObserveStep(raw, 7, MAX32, NO_FAULTS), RecordStep(e, NO_FAULTS)];
            var once := Run(map[], steps);
            var twice := Next(once, RecordStep(e, NO_FAULTS));
            && Observed(once.disk.store, raw, NO_FAULTS) && !Rises(once.disk.store, raw)
            && Stores(once, VersionKey(KeyPath(raw)), V4(1)) && Stores(twice, VersionKey(KeyPath(raw)), V4(2))
            && QIDVersion(once.disk.store, raw, 0, NO_FAULTS) == MAX32
            && QIDVersion(twice.disk.store, raw, 0, NO_FAULTS) == MAX32
  {
    hide KeyPath, Count, Inc64;
    var p := KeyPath(raw);
    var e := Entry(op, false, [raw], "");
    var steps := [RestartStep(true), ObserveStep(raw, 7, MAX32, NO_FAULTS), RecordStep(e, NO_FAULTS)];
    EmptyLoads();
    RunStep(map[], steps, 0);
    RunStep(map[], steps, 1);
    RunStep(map[], steps, 2);
    assert steps[..0] == [] && steps[..3] == steps;
    var seen := Run(map[], steps[..2]);
    assert seen.disk.store == map[QIDKey(p) := V12(7, MAX32), VersionKey(p) := V4(MAX32)];
    assert raw in [raw] && VersionKeys([raw]) == {VersionKey(p)};
    RecordStores(seen, e, p);
    RecordStores(Next(seen, steps[2]), e, p);
  }

  lemma RecordStores(s: System, e: Entry, p: string)
    requires s.up && VersionKeys(e.paths) == {VersionKey(p)} && VersionKey(p) in s.disk.store
    requires s.disk.store[VersionKey(p)].V4? && QIDKey(p) in s.disk.store
    ensures var t := Next(s, RecordStep(e, NO_FAULTS));
            && t.up && Stores(t, VersionKey(p), V4(Bump(s.disk.store[VersionKey(p)].v)))
            && Stores(t, QIDKey(p), s.disk.store[QIDKey(p)])
  {
    hide KeyPath, Count, VersionKeys, Inc64;
    assert StoredVersion(s.disk.store, VersionKey(p), NO_FAULTS) == Some(s.disk.store[VersionKey(p)].v);
  }

  /** A path that was observed has a stored version in every run. */
  lemma {:induction false} ObservedHasVersion(start: Values, steps: seq<Step>, p: string)
    requires QIDKey(p) in start ==> VersionKey(p) in start
    ensures var s := Run(start, steps).disk.store; QIDKey(p) in s ==> VersionKey(p) in s
  {
    hide Next;
    if steps != [] {
      ObservedHasVersion(start, steps[..|steps| - 1], p);
      StepKeepsVersion(Run(start, steps[..|steps| - 1]), steps[|steps| - 1], p);
    }
  }

  lemma StepKeepsVersion(s: System, step: Step, p: string)
    requires QIDKey(p) in s.disk.store ==> VersionKey(p) in s.disk.store
    ensures var t := Next(s, step).disk.store; QIDKey(p) in t ==> VersionKey(p) in t
  {
    hide KeyPath, Loadable, Loaded, Inc64, Count;
  }
}
