/** The durable remote anchor queue: `Enqueue` and `Flush` interleave between lock sections, so the queue is both a
    class (one method per lock section) and a step system over those sections. */
module RemoteQueue {
  import opened Results
  import opened Numbers
  import opened Text
  import opened AnchorPolicy

  const QUEUE_VERSION := "weaverssh.agent-remote-anchor-queue.v1"

  datatype Delivery = Delivery(
    version: string, head: QueueHead, receipts: seq<Receipt>, enqueuedAtUnix: int, attempts: nat, lastAttemptUnix: int,
    nextAttemptUnix: int, deliveredAtUnix: int, failed: bool)

  /** `fmt.Sprintf("%s:%020d:%s", stream, sequence, digest)`. */
  function RemoteHeadKey(h: QueueHead): string {
    h.streamID + ":" + Decimal(h.sequence, 20) + ":" + h.statementSHA256
  }

  /** Heads accepted by the queue have distinct keys, whatever colons their stream names hold. */
  lemma RemoteHeadKeyInjective(g: QueueHead, h: QueueHead)
    requires Anchorable(g) && Anchorable(h) && RemoteHeadKey(g) == RemoteHeadKey(h)
    ensures g == h
  {
    HexHasNoColon(g.statementSHA256);
    HexHasNoColon(h.statementSHA256);
    KeyPartsUnique(g.streamID, Decimal(g.sequence, 20), g.statementSHA256,
                   h.streamID, Decimal(h.sequence, 20), h.statementSHA256);
    Pow10Of20();
    DecimalInjective(g.sequence, h.sequence, 20);
  }

  lemma KeyPartsUnique(s: string, m: string, d: string, t: string, n: string, e: string)
    requires |m| == 20 && |n| == 20 && ':' !in d && ':' !in e && s + ":" + m + ":" + d == t + ":" + n + ":" + e
    ensures s == t && m == n && d == e
  {
    var a, b := s + ":" + m + ":" + d, t + ":" + n + ":" + e;
    var i, j := |s| + 21, |t| + 21;
    assert a[i] == ':' && b[j] == ':';
    assert forall k :: i < k < |a| ==> a[k] == d[k - i - 1];
    assert forall k :: j < k < |b| ==> b[k] == e[k - j - 1];
    assert i == j;
    assert a[..|s|] == s && b[..|t|] == t;
    assert a[|s| + 1..|s| + 21] == m && b[|t| + 1..|t| + 21] == n;
    assert a[i + 1..] == d && b[j + 1..] == e;
  }

  // ---------------------------------------------------------------------------------------------
  // Retry delays

  function Min(a: int, b: int): int { if a <= b then a else b }

  /** The delay before the next try: doubling from `minBackoff`, capped at `maxBackoff`. */
  function RetryDelay(minBackoff: int, maxBackoff: int, attempt: int): int {
    Min(maxBackoff, minBackoff * Pow2(if attempt >= 1 then attempt - 1 else 0))
  }

  method Backoff(minBackoff: int, maxBackoff: int, attempt: int) returns (r: int)
    requires 0 < minBackoff && 0 < maxBackoff
    ensures r == RetryDelay(minBackoff, maxBackoff, attempt)
    ensures 0 < r <= maxBackoff
  {
    r := minBackoff;
    var i := 1;
    while i < attempt && r < maxBackoff
      invariant 1 <= i && (i <= attempt || i == 1)
      invariant r == minBackoff * Pow2(i - 1) && r >= minBackoff
      invariant minBackoff <= maxBackoff ==> r <= maxBackoff
    {
      Doubling(minBackoff, i - 1);
      if r > maxBackoff / 2 {
        GrowsWith(minBackoff, i, attempt - 1);
        return maxBackoff;
      }
      r := r * 2;
      i := i + 1;
    }
    if attempt >= 1 { GrowsWith(minBackoff, i - 1, attempt - 1); }
    if r > maxBackoff { return maxBackoff; }
  }

  lemma Doubling(m: int, k: nat)
    ensures m * Pow2(k + 1) == 2 * (m * Pow2(k))
  {
    assert m * (2 * Pow2(k)) == 2 * (m * Pow2(k));
  }

  lemma {:induction false} GrowsWith(m: int, j: nat, k: nat)
    requires m > 0 && j <= k
    ensures 0 < m * Pow2(j) <= m * Pow2(k)
    decreases k
  {
    if j < k {
      GrowsWith(m, j, k - 1);
      Doubling(m, k - 1);
    } else if k > 0 {
      GrowsWith(m, j - 1, k - 1);
      Doubling(m, k - 1);
    }
  }

  /** Delays never shrink from one attempt to the next, and never pass the cap. */
  lemma RetryDelayMonotone(minBackoff: int, maxBackoff: int, attempt: int, later: int)
    requires 0 < minBackoff && 0 < maxBackoff && attempt <= later
    ensures 0 < RetryDelay(minBackoff, maxBackoff, attempt) <= RetryDelay(minBackoff, maxBackoff, later) <= maxBackoff
  {
    GrowsWith(minBackoff, if attempt >= 1 then attempt - 1 else 0, if later >= 1 then later - 1 else 0);
  }

  /** The first retry waits the shortest delay, and each further one twice as long as the one before, up to the cap. */
  lemma RetryDelayDoubles(minBackoff: int, maxBackoff: int, attempt: nat)
    requires 0 < minBackoff && 0 < maxBackoff && attempt >= 1
    ensures RetryDelay(minBackoff, maxBackoff, 1) == Min(maxBackoff, minBackoff)
    ensures RetryDelay(minBackoff, maxBackoff, attempt + 1)
            == Min(maxBackoff, 2 * RetryDelay(minBackoff, maxBackoff, attempt))
  {
    assert Pow2(0) == 1;
    Doubling(minBackoff, attempt - 1);
    GrowsWith(minBackoff, 0, attempt - 1);
  }

  // ---------------------------------------------------------------------------------------------
  // Lock sections

  predicate HasHead(items: seq<Delivery>, h: QueueHead) { exists i :: 0 <= i < |items| && items[i].head == h }

  /** `Enqueue` on the items: refused heads, known heads and failed writes leave them as they were. */
  function Enqueued(items: seq<Delivery>, closed: bool, h: QueueHead, now: int, persisted: bool): seq<Delivery> {
    if !Anchorable(h) || closed || HasHead(items, h) || !persisted then items
    else items + [Delivery(QUEUE_VERSION, h, [], now, 0, 0, now, 0, false)]
  }

  /** The item is pending, untried in this flush, and due (or the flush is forced). */
  predicate Due(item: Delivery, force: bool, nowUnix: int, attempted: set<string>) {
    && item.deliveredAtUnix <= 0 && RemoteHeadKey(item.head) !in attempted
    && (force || item.nextAttemptUnix == 0 || item.nextAttemptUnix <= nowUnix)
  }

  /** `nextDue`'s choice: the first due item. */
  ghost predicate IsNextDue(items: seq<Delivery>, closed: bool, force: bool, nowUnix: int, attempted: set<string>,
                            pick: Option<nat>) {
    if pick.Some? then
      && !closed && pick.value < |items| && Due(items[pick.value], force, nowUnix, attempted)
      && forall i :: 0 <= i < pick.value ==> !Due(items[i], force, nowUnix, attempted)
    else
      closed || forall i :: 0 <= i < |items| ==> !Due(items[i], force, nowUnix, attempted)
  }

  /** The item after an attempt: delivered when the policy is met by the merged receipts, otherwise deferred.  The
      clock is read for each stamp. */
  function Settled(p: Policy, minBackoff: int, maxBackoff: int, item: Delivery, merged: seq<Receipt>,
                   triedAt: int, doneAt: int): (r: Delivery)
    ensures r.head == item.head && r.receipts == merged && r.version == item.version
    ensures r.enqueuedAtUnix == item.enqueuedAtUnix
    ensures r.deliveredAtUnix > 0 && item.deliveredAtUnix <= 0 ==> ThresholdMet(p, item.head, merged)
  {
    var tried := item.(attempts := item.attempts + 1, lastAttemptUnix := triedAt / SECOND, receipts := merged);
    if ThresholdMet(p, item.head, merged)
    then tried.(deliveredAtUnix := doneAt / SECOND, nextAttemptUnix := 0, failed := false)
    else tried.(nextAttemptUnix := (doneAt + RetryDelay(minBackoff, maxBackoff, tried.attempts)) / SECOND,
                failed := true)
  }

  /** What `Flush` meets at one iteration: the clock, a cancelled context, the providers' answers, and whether the
      queue file could be written. */
  datatype Weather = Weather(now: int, cancelled: bool, answers: Answers, triedAt: int, doneAt: int, persisted: bool)

  class AgentRemoteAnchorQueue {
    const policy: Policy
    const minBackoff: int
    const maxBackoff: int
    var items: seq<Delivery>
    var closed: bool

    ghost predicate Valid()
      reads this
    {
      0 < minBackoff && 0 < maxBackoff && AllAnchorable(items)
    }

    /** Opens a queue over loaded items; unset delays get their defaults. */
    constructor (policy: Policy, minBackoff: int, maxBackoff: int, items: seq<Delivery>)
      requires AllAnchorable(items)
      ensures Valid() && this.policy == policy && this.items == items && !closed
      ensures this.minBackoff == if minBackoff <= 0 then 5 * SECOND else minBackoff
      ensures this.maxBackoff == if maxBackoff < this.minBackoff then 300 * SECOND else maxBackoff
    {
      this.policy, this.items, this.closed := policy, items, false;
      var low := if minBackoff <= 0 then 5 * SECOND else minBackoff;
      this.minBackoff := low;
      this.maxBackoff := if maxBackoff < low then 300 * SECOND else maxBackoff;
    }

    method Enqueue(h: QueueHead, now: int, persisted: bool) returns (ok: bool)
      requires Valid()
      modifies this`items
      ensures Valid() && items == Enqueued(old(items), closed, h, now, persisted)
      ensures ok <==> Anchorable(h) && !closed && HasHead(items, h)
    {
      hide Anchorable;
      if !Anchorable(h) || closed { return false; }
      for i := 0 to |items|
        invariant forall j :: 0 <= j < i ==> items[j].head != h
      {
        if items[i].head == h { return true; }
      }
      items := items + [Delivery(QUEUE_VERSION, h, [], now, 0, 0, now, 0, false)];
      if !persisted {
        items := items[..|items| - 1];
        assert items == old(items);
        return false;
      }
      assert items[|items| - 1].head == h;
      return true;
    }

    method NextDue(force: bool, nowUnix: int, attempted: set<string>) returns (pick: Option<nat>)
      ensures IsNextDue(items, closed, force, nowUnix, attempted, pick)
    {
      hide Due;
      if closed { return None; }
      for i := 0 to |items|
        invariant forall j :: 0 <= j < i ==> !Due(items[j], force, nowUnix, attempted)
      {
        if Due(items[i], force, nowUnix, attempted) { return Some(i); }
      }
      return None;
    }

    /** The lock section after anchoring: the item is found again by its index and head, then updated. */
    method Settle(index: nat, h: QueueHead, incoming: seq<Receipt>, triedAt: int, doneAt: int)
      returns (known: bool, delivered: bool, ghost merged: seq<Receipt>)
      requires Valid()
      modifies this`items
      ensures Valid()
      ensures known <==> index < |old(items)| && old(items)[index].head == h
      ensures !known ==> items == old(items)
      ensures known ==>
                && IsMerge(old(items)[index].receipts, incoming, merged)
                && items == old(items)[index :=
                     Settled(policy, minBackoff, maxBackoff, old(items)[index], merged, triedAt, doneAt)]
                && (delivered <==> ThresholdMet(policy, h, merged))
    {
      hide ThresholdMet, IsMerge, Anchorable;
      known, delivered, merged := false, false, [];
      if index >= |items| || items[index].head != h { return; }
      known := true;
      var item := items[index];
      var receipts := MergeAnchorReceipts(item.receipts, incoming);
      merged := receipts;
      var current := item.(attempts := item.attempts + 1, lastAttemptUnix := triedAt / SECOND, receipts := receipts);
      var _, fault := Verify(policy, h, receipts);
      if fault.None? {
        delivered := true;
        current := current.(deliveredAtUnix := doneAt / SECOND, nextAttemptUnix := 0, failed := false);
      } else {
        var delay := Backoff(minBackoff, maxBackoff, current.attempts);
        current := current.(nextAttemptUnix := (doneAt + delay) / SECOND, failed := true);
      }
      items := items[index := current];
    }

    /** A flush that nothing interleaves with.  It ends because each iteration takes a head it has not tried yet; one
        that is neither cancelled nor stopped leaves no pending head untried that was due at its last look (round
        `last`), and none at all if it is forced. */
    method Flush(force: bool, weather: nat -> Weather) returns (tried: seq<QueueHead>, finished: bool, ghost last: nat)
      requires Valid() && DistinctHeads(items)
      modifies this`items
      ensures Valid() && Heads(items) == old(Heads(items))
      ensures NoRepeats(tried) && forall h :: h in tried ==> h in Heads(items)
      ensures finished && !closed ==>
                forall i :: 0 <= i < |items| ==>
                  || items[i].deliveredAtUnix > 0 || items[i].head in tried
                  || (!force && items[i].nextAttemptUnix != 0 && items[i].nextAttemptUnix > weather(last).now / SECOND)
    {
      hide Anchorable, RemoteHeadKey, ThresholdMet, Settled;
      tried, finished, last := [], false, 0;
      var attempted: set<string> := {};
      var round: nat := 0;
      while true
        invariant Valid() && Heads(items) == old(Heads(items)) && DistinctHeads(items)
        invariant NoRepeats(tried) && (forall h :: h in tried ==> h in Heads(items))
        invariant forall k :: k in attempted <==> exists h :: h in tried && RemoteHeadKey(h) == k
        invariant |tried| <= |items|
        decreases |items| - |tried|
      {
        var w := weather(round);
        var pick := NextDue(force, w.now / SECOND, attempted);
        if pick.None? {
          finished, last := true, round;
          forall i | 0 <= i < |items| && !closed
            ensures || items[i].deliveredAtUnix > 0 || items[i].head in tried
                    || (!force && items[i].nextAttemptUnix != 0 && items[i].nextAttemptUnix > w.now / SECOND)
          {
            AttemptedMeansTried(items[i].head, attempted, tried);
          }
          return;
        }
        var index := pick.value;
        var head := items[index].head;
        attempted := attempted + {RemoteHeadKey(head)};
        assert head !in tried;
        assert Heads(items)[index] == head;
        TriedFits(tried + [head], Heads(items));
        tried := tried + [head];
        if w.cancelled { return; }
        var receipts, _ := Anchor(policy, head, w.answers);
        var known, delivered, merged := Settle(index, head, receipts, w.triedAt, w.doneAt);
        if !w.persisted { return; }
        round := round + 1;
      }
    }
  }

  ghost predicate AllAnchorable(items: seq<Delivery>) {
    forall i :: 0 <= i < |items| ==> Anchorable(items[i].head)
  }

  function Heads(items: seq<Delivery>): seq<QueueHead> {
    seq(|items|, i requires 0 <= i < |items| => items[i].head)
  }

  ghost predicate NoRepeats<T>(s: seq<T>) { forall i, j :: 0 <= i < j < |s| ==> s[i] != s[j] }

  ghost predicate DistinctHeads(items: seq<Delivery>) { NoRepeats(Heads(items)) }

  /** Distinct members of a list are no more than the list is long. */
  lemma {:induction false} TriedFits<T>(t: seq<T>, all: seq<T>)
    requires NoRepeats(t) && forall x :: x in t ==> x in all
    ensures |t| <= |all|
    decreases |t|
  {
    if t != [] {
      var x := t[|t| - 1];
      assert x in t;
      var k :| 0 <= k < |all| && all[k] == x;
      var rest := all[..k] + all[k + 1..];
      forall y | y in t[..|t| - 1] ensures y in rest {
        var i :| 0 <= i < |t| - 1 && t[i] == y;
        assert t[i] in t;
        var m :| 0 <= m < |all| && all[m] == y;
        assert m != k;
        assert y == rest[if m < k then m else m - 1];
      }
      TriedFits(t[..|t| - 1], rest);
    }
  }

  /** A head whose key was tried was itself tried. */
  lemma AttemptedMeansTried(h: QueueHead, attempted: set<string>, tried: seq<QueueHead>)
    requires Anchorable(h) && forall g :: g in tried ==> Anchorable(g)
    requires forall k :: k in attempted <==> exists g :: g in tried && RemoteHeadKey(g) == k
    ensures RemoteHeadKey(h) in attempted <==> h in tried
  {
    hide Anchorable, RemoteHeadKey;
    if RemoteHeadKey(h) in attempted {
      var g :| g in tried && RemoteHeadKey(g) == RemoteHeadKey(h);
      RemoteHeadKeyInjective(g, h);
    }
  }

  // ---------------------------------------------------------------------------------------------
  // Interleaved runs

  datatype Setup = Setup(policy: Policy, minBackoff: int, maxBackoff: int)

  datatype Pick = Pick(index: nat, head: QueueHead)

  /** A running flush: the keys it has tried (and, as history, the heads), and the item being anchored outside the
      lock. */
  datatype Flushing = Flushing(force: bool, attempted: set<string>, tried: seq<QueueHead>, current: Option<Pick>)

  datatype Queue = Queue(items: seq<Delivery>, closed: bool, flush: Option<Flushing>)

  datatype Step =
    | EnqueueStep(head: QueueHead, now: int, persisted: bool)
    | CloseStep
    | BeginFlush(force: bool)
    | PickStep(nowUnix: int, pick: Option<nat>)
    | CancelStep
    | SettleStep(incoming: seq<Receipt>, merged: seq<Receipt>, triedAt: int, doneAt: int, persisted: bool)

  /** Anchoring returns only receipts that name a configured provider and this head. */
  ghost predicate FromAnchor(p: Policy, h: QueueHead, receipts: seq<Receipt>) {
    forall r :: r in receipts ==> exists n :: n in p.providers && ReceiptFault(r, n, h) == None
  }

  function ReceiptsAt(items: seq<Delivery>, pick: Pick): seq<Receipt> {
    if pick.index < |items| then items[pick.index].receipts else []
  }

  /** Only one flush runs at a time; `Enqueue` and `Close` may come between any two of its lock sections. */
  ghost predicate Enabled(s: Setup, q: Queue, step: Step) {
    match step
    case EnqueueStep(_, now, _) => now > 0
    case CloseStep => true
    case BeginFlush(_) => q.flush.None?
    case PickStep(now, pick) =>
      q.flush.Some? && q.flush.value.current.None?
      && IsNextDue(q.items, q.closed, q.flush.value.force, now, q.flush.value.attempted, pick)
    case CancelStep => q.flush.Some? && q.flush.value.current.Some?
    case SettleStep(incoming, merged, _, _, _) =>
      q.flush.Some? && q.flush.value.current.Some?
      && FromAnchor(s.policy, q.flush.value.current.value.head, incoming)
      && IsMerge(ReceiptsAt(q.items, q.flush.value.current.value), incoming, merged)
  }

  ghost function Next(s: Setup, q: Queue, step: Step): Queue
    requires Enabled(s, q, step)
  {
    match step
    case EnqueueStep(h, now, persisted) => q.(items := Enqueued(q.items, q.closed, h, now, persisted))
    case CloseStep => q.(closed := true)
    case BeginFlush(force) => q.(flush := Some(Flushing(force, {}, [], None)))
    case PickStep(_, pick) =>
      if pick.None? then q.(flush := None)
      else
        var f, h := q.flush.value, q.items[pick.value].head;
        q.(flush := Some(Flushing(f.force, f.attempted + {RemoteHeadKey(h)}, f.tried + [h], Some(Pick(pick.value, h)))))
    case CancelStep => q.(flush := None)
    case SettleStep(_, merged, triedAt, doneAt, persisted) =>
      var f := q.flush.value;
      var pick := f.current.value;
      if !Rechecks(q) then q.(flush := Some(f.(current := None)))
      else
        var item := Settled(s.policy, s.minBackoff, s.maxBackoff, q.items[pick.index], merged, triedAt, doneAt);
        q.(items := q.items[pick.index := item], flush := if persisted then Some(f.(current := None)) else None)
  }

  /** The item picked before anchoring is still at its index. */
  predicate Rechecks(q: Queue)
    requires q.flush.Some? && q.flush.value.current.Some?
  {
    var pick := q.flush.value.current.value;
    pick.index < |q.items| && q.items[pick.index].head == pick.head
  }

  ghost predicate IsRun(s: Setup, states: seq<Queue>, steps: seq<Step>) {
    && |states| == |steps| + 1
    && forall i :: 0 <= i < |steps| ==> Enabled(s, states[i], steps[i]) && states[i + 1] == Next(s, states[i], steps[i])
  }

  /** A queue as `load` leaves it. */
  ghost predicate Initial(q: Queue) { q.flush.None? && AllAnchorable(q.items) && DistinctHeads(q.items) }

  ghost predicate FlushInv(q: Queue) {
    q.flush.Some? ==>
      var f := q.flush.value;
      && NoRepeats(f.tried) && (forall h :: h in f.tried ==> h in Heads(q.items))
      && (forall k :: k in f.attempted <==> exists h :: h in f.tried && RemoteHeadKey(h) == k)
      && (f.current.Some? ==> Rechecks(q) && q.items[f.current.value.index].deliveredAtUnix <= 0)
  }

  ghost predicate QueueInv(q: Queue) { AllAnchorable(q.items) && DistinctHeads(q.items) && FlushInv(q) }

  lemma HeadsMember(items: seq<Delivery>, h: QueueHead)
    ensures HasHead(items, h) <==> h in Heads(items)
  {
    if HasHead(items, h) {
      var i :| 0 <= i < |items| && items[i].head == h;
      assert Heads(items)[i] == h;
    }
  }

  lemma EnqueueKeeps(q: Queue, h: QueueHead, now: int, persisted: bool)
    requires QueueInv(q)
    ensures QueueInv(q.(items := Enqueued(q.items, q.closed, h, now, persisted)))
    ensures Heads(q.items) <= Heads(Enqueued(q.items, q.closed, h, now, persisted))
  {
    hide Anchorable, RemoteHeadKey;
    var after := Enqueued(q.items, q.closed, h, now, persisted);
    if after != q.items {
      HeadsMember(q.items, h);
      assert Heads(after) == Heads(q.items) + [h];
    }
  }

  lemma PickKeeps(s: Setup, q: Queue, step: Step)
    requires QueueInv(q) && step.PickStep? && Enabled(s, q, step)
    ensures QueueInv(Next(s, q, step))
    ensures step.pick.Some? ==> q.items[step.pick.value].head !in q.flush.value.tried
  {
    hide Anchorable, RemoteHeadKey;
    if step.pick.Some? {
      var f, i := q.flush.value, step.pick.value;
      var h := q.items[i].head;
      assert Heads(q.items)[i] == h;
      forall g | g in f.tried ensures Anchorable(g) {
        var k :| 0 <= k < |q.items| && Heads(q.items)[k] == g;
      }
      AttemptedMeansTried(h, f.attempted, f.tried);
      var after := Next(s, q, step).flush.value;
      forall k | k in after.attempted ensures exists g :: g in after.tried && RemoteHeadKey(g) == k {
        if k in f.attempted {
          var g :| g in f.tried && RemoteHeadKey(g) == k;
          assert g in after.tried;
        } else {
          assert h in after.tried;
        }
      }
    }
  }

  lemma SettleKeeps(s: Setup, q: Queue, step: Step)
    requires QueueInv(q) && step.SettleStep? && Enabled(s, q, step)
    ensures QueueInv(Next(s, q, step)) && Heads(Next(s, q, step).items) == Heads(q.items)
  {
    hide Anchorable, RemoteHeadKey, IsMerge, Settled, FromAnchor;
    var q' := Next(s, q, step);
    assert Heads(q'.items) == Heads(q.items);
  }

  lemma StepKeeps(s: Setup, q: Queue, step: Step)
    requires QueueInv(q) && Enabled(s, q, step)
    ensures QueueInv(Next(s, q, step)) && Heads(q.items) <= Heads(Next(s, q, step).items)
  {
    hide Anchorable, RemoteHeadKey, IsMerge, Settled, FromAnchor, IsNextDue;
    match step
    case EnqueueStep(h, now, persisted) => EnqueueKeeps(q, h, now, persisted);
    case PickStep(_, _) => PickKeeps(s, q, step);
    case SettleStep(_, _, _, _, _) => SettleKeeps(s, q, step);
    case _ =>
  }

  /** Over every interleaving of enqueues, closes and flushes: heads stay distinct, items are never removed or
      reordered, each flush tries a head at most once, and no flush makes more tries than there are items. */
  lemma {:induction false} RunKeepsQueue(s: Setup, states: seq<Queue>, steps: seq<Step>, i: nat, j: nat)
    requires IsRun(s, states, steps) && Initial(states[0]) && i <= j < |states|
    ensures DistinctHeads(states[j].items) && Heads(states[i].items) <= Heads(states[j].items)
    ensures states[j].flush.Some? ==>
              NoRepeats(states[j].flush.value.tried) && |states[j].flush.value.tried| <= |states[j].items|
    ensures QueueInv(states[j])
    decreases j
  {
    hide Enabled, Next, Anchorable, RemoteHeadKey;
    if j > 0 {
      RunKeepsQueue(s, states, steps, if i < j then i else j - 1, j - 1);
      StepKeeps(s, states[j - 1], steps[j - 1]);
    }
    if states[j].flush.Some? { TriedFits(states[j].flush.value.tried, Heads(states[j].items)); }
  }

  /** The re-check after anchoring never fails, whatever was enqueued meanwhile. */
  lemma RecheckNeverFails(s: Setup, states: seq<Queue>, steps: seq<Step>, j: nat)
    requires IsRun(s, states, steps) && Initial(states[0]) && j < |states|
    requires states[j].flush.Some? && states[j].flush.value.current.Some?
    ensures Rechecks(states[j])
  {
    hide Enabled, Next, Anchorable, RemoteHeadKey;
    RunKeepsQueue(s, states, steps, j, j);
  }

  /** One step leaves an item alone unless it settles it, and only the threshold turns it delivered. */
  lemma StepItem(s: Setup, q: Queue, step: Step, i: nat)
    requires QueueInv(q) && Enabled(s, q, step) && i < |Next(s, q, step).items|
    ensures var item := Next(s, q, step).items[i];
            || (i < |q.items| && item == q.items[i])
            || (item.deliveredAtUnix > 0 ==> ThresholdMet(s.policy, item.head, item.receipts))
    ensures i < |q.items| && q.items[i].deliveredAtUnix > 0 ==> Next(s, q, step).items[i] == q.items[i]
  {
    hide Anchorable, RemoteHeadKey, IsMerge, ThresholdMet, FromAnchor, IsNextDue, Settled;
  }

  /** An item is delivered only if at least `threshold` distinct configured providers verified receipts it still
      holds; items already delivered when the queue was opened stay exactly as they were. */
  lemma {:induction false} DeliveredMeetsThreshold(s: Setup, states: seq<Queue>, steps: seq<Step>, j: nat, i: nat)
    requires IsRun(s, states, steps) && Initial(states[0]) && j < |states|
    requires i < |states[j].items| && states[j].items[i].deliveredAtUnix > 0
    ensures || ThresholdMet(s.policy, states[j].items[i].head, states[j].items[i].receipts)
            || (i < |states[0].items| && states[0].items[i] == states[j].items[i])
    decreases j
  {
    hide Enabled, Next, Anchorable, RemoteHeadKey, ThresholdMet;
    if j > 0 {
      RunKeepsQueue(s, states, steps, j - 1, j - 1);
      StepItem(s, states[j - 1], steps[j - 1], i);
      if i < |states[j - 1].items| && states[j].items[i] == states[j - 1].items[i] {
        DeliveredMeetsThreshold(s, states, steps, j - 1, i);
      }
    }
  }

  /** The step settles the item at position `x`. */
  ghost predicate Settles(q: Queue, step: Step, x: nat) {
    step.SettleStep? && q.flush.Some? && q.flush.value.current.Some? && q.flush.value.current.value.index == x
  }

  lemma StepLeavesItem(s: Setup, q: Queue, step: Step, x: nat)
    requires Enabled(s, q, step) && x < |q.items| && !Settles(q, step, x)
    ensures x < |Next(s, q, step).items| && Next(s, q, step).items[x] == q.items[x]
  {
    hide Anchorable, RemoteHeadKey, IsMerge, FromAnchor, IsNextDue, Settled;
  }

  lemma {:induction false} ItemStands(s: Setup, states: seq<Queue>, steps: seq<Step>, i: nat, k: nat, x: nat)
    requires IsRun(s, states, steps) && i <= k < |states| && x < |states[i].items|
    requires forall j :: i <= j < k ==> !Settles(states[j], steps[j], x)
    ensures x < |states[k].items| && states[k].items[x] == states[i].items[x]
    decreases k
  {
    hide Enabled, Next, Settles;
    if i < k {
      ItemStands(s, states, steps, i, k - 1, x);
      StepLeavesItem(s, states[k - 1], steps[k - 1], x);
    }
  }

  /** Once closed a queue stays closed: in every run no item is added after it, and no flush takes up another. */
  lemma {:induction false} ClosedRests(s: Setup, states: seq<Queue>, steps: seq<Step>, i: nat, k: nat)
    requires IsRun(s, states, steps) && i < k < |states| && steps[i].CloseStep?
    ensures states[k].closed && |states[k].items| == |states[i].items|
    ensures k < |steps| && steps[k].PickStep? ==> steps[k].pick == None
    decreases k
  {
    hide Anchorable, RemoteHeadKey, IsMerge, FromAnchor, Due, Settled;
    if i + 1 < k { ClosedRests(s, states, steps, i, k - 1); }
    assert states[k] == Next(s, states[k - 1], steps[k - 1]);
    if k < |steps| { assert Enabled(s, states[k], steps[k]); }
  }

  /** An attempt delivers an item exactly when the merged receipts meet the policy; otherwise it is counted, marked as
      failed and put off by its delay. */
  lemma SettledExactly(p: Policy, minBackoff: int, maxBackoff: int, item: Delivery, merged: seq<Receipt>, triedAt: int,
                       doneAt: int)
    requires item.deliveredAtUnix <= 0 && doneAt >= SECOND
    ensures var r := Settled(p, minBackoff, maxBackoff, item, merged, triedAt, doneAt);
            && r.attempts == item.attempts + 1 && r.lastAttemptUnix == triedAt / SECOND
            && (r.deliveredAtUnix > 0 <==> ThresholdMet(p, item.head, merged)) && (r.failed <==> r.deliveredAtUnix <= 0)
            && (r.deliveredAtUnix > 0 ==> r.deliveredAtUnix == doneAt / SECOND && r.nextAttemptUnix == 0)
            && (r.failed ==> r.nextAttemptUnix
                             == (doneAt + RetryDelay(minBackoff, maxBackoff, item.attempts + 1)) / SECOND)
  {
    hide ThresholdMet, RetryDelay;
  }

  /** Over every run, an item whose receipts met the policy when it was settled is delivered, and stays as it then
      was. */
  lemma {:induction false} MetIsDelivered(s: Setup, states: seq<Queue>, steps: seq<Step>, i: nat, k: nat, x: nat)
    requires IsRun(s, states, steps) && Initial(states[0]) && i < k < |states| && Settles(states[i], steps[i], x)
    requires steps[i].doneAt >= SECOND && x < |states[i].items|
    requires ThresholdMet(s.policy, states[i].items[x].head, steps[i].merged)
    ensures x < |states[k].items| && states[k].items[x].deliveredAtUnix == steps[i].doneAt / SECOND
    decreases k
  {
    hide ThresholdMet, Settled, QueueInv, Enabled, Next;
    RunKeepsQueue(s, states, steps, k - 1, k - 1);
    assert states[k] == Next(s, states[k - 1], steps[k - 1]);
    if i + 1 < k {
      MetIsDelivered(s, states, steps, i, k - 1, x);
      StepGrows(s, states[k - 1], steps[k - 1]);
      StepItem(s, states[k - 1], steps[k - 1], x);
    } else {
      SettledItem(s, states[i], steps[i], x);
      SettledExactly(s.policy, s.minBackoff, s.maxBackoff, states[i].items[x], steps[i].merged, steps[i].triedAt,
                     steps[i].doneAt);
    }
  }

  lemma SettledItem(s: Setup, q: Queue, step: Step, x: nat)
    requires QueueInv(q) && Enabled(s, q, step) && Settles(q, step, x)
    ensures x < |q.items| == |Next(s, q, step).items| && q.items[x].deliveredAtUnix <= 0
    ensures Next(s, q, step).items[x]
            == Settled(s.policy, s.minBackoff, s.maxBackoff, q.items[x], step.merged, step.triedAt, step.doneAt)
  {
    hide Settled, Anchorable, RemoteHeadKey, IsMerge, FromAnchor, IsNextDue, DistinctHeads;
  }

  lemma StepGrows(s: Setup, q: Queue, step: Step)
    requires Enabled(s, q, step)
    ensures |q.items| <= |Next(s, q, step).items|
  {
    hide Anchorable, RemoteHeadKey, IsMerge, FromAnchor, IsNextDue, Settled;
  }

  /** A head is enqueued exactly when it is anchorable and unknown, the queue is open and the file could be written;
      it is then due for every flush that has not tried it, forced or not. */
  lemma EnqueuedExactly(items: seq<Delivery>, closed: bool, h: QueueHead, now: int, persisted: bool, later: int,
                        force: bool, attempted: set<string>)
    requires now <= later
    ensures var after := Enqueued(items, closed, h, now, persisted);
            && (after != items <==> Anchorable(h) && h !in Heads(items) && !closed && persisted)
            && (after != items ==>
                  && after[..|items|] == items && |after| == |items| + 1
                  && var item := after[|items|];
                     && item.head == h && item.receipts == [] && item.attempts == 0 && !item.failed
                     && (Due(item, force, later, attempted) <==> RemoteHeadKey(h) !in attempted))
  {
    hide Anchorable, RemoteHeadKey;
    HeadsMember(items, h);
  }

  /** Over every run, the next unforced try of an item that was deferred comes no earlier than its delay allows,
      whatever was enqueued, flushed or closed meanwhile. */
  lemma DeferredWaits(s: Setup, states: seq<Queue>, steps: seq<Step>, i: nat, k: nat, x: nat)
    requires IsRun(s, states, steps) && i < k < |steps| && Settles(states[i], steps[i], x)
    requires Rechecks(states[i]) && !ThresholdMet(s.policy, states[i].items[x].head, steps[i].merged)
    requires forall j :: i < j < k ==> !Settles(states[j], steps[j], x)
    requires steps[k].PickStep? && steps[k].pick == Some(x) && !states[k].flush.value.force
    ensures var delay := RetryDelay(s.minBackoff, s.maxBackoff, states[i].items[x].attempts + 1);
            var due := (steps[i].doneAt + delay) / SECOND;
            due == 0 || due <= steps[k].nowUnix
  {
    hide Anchorable, RemoteHeadKey, IsMerge, FromAnchor, ThresholdMet, RetryDelay;
    var item := states[i + 1].items[x];
    assert states[i + 1] == Next(s, states[i], steps[i]);
    assert item.nextAttemptUnix
        == (steps[i].doneAt + RetryDelay(s.minBackoff, s.maxBackoff, states[i].items[x].attempts + 1)) / SECOND;
    ItemStands(s, states, steps, i + 1, k, x);
    assert Enabled(s, states[k], steps[k]);
  }

  // ---------------------------------------------------------------------------------------------
  // Restarts

  /** What `load` objects to at item `i` of a queue file. */
  ghost predicate ItemLoads(items: seq<Delivery>, i: nat)
    requires i < |items|
  {
    && items[i].version == QUEUE_VERSION && items[i].enqueuedAtUnix > 0 && Anchorable(items[i].head)
    && (forall j :: 0 <= j < i ==> RemoteHeadKey(items[j].head) != RemoteHeadKey(items[i].head))
    && (forall r :: r in items[i].receipts ==> ReceiptFault(r, r.provider, items[i].head) == None)
    && (items[i].deliveredAtUnix > 0 ==> items[i].receipts != [])
  }

  /** The file opens. */
  ghost predicate FileLoads(items: seq<Delivery>) { forall i :: 0 <= i < |items| ==> ItemLoads(items, i) }

  method Load(items: seq<Delivery>) returns (ok: bool)
    ensures ok <==> FileLoads(items)
  {
    hide Anchorable, RemoteHeadKey, ReceiptFault;
    var seen: set<string> := {};
    for i := 0 to |items|
      invariant forall j :: 0 <= j < i ==> ItemLoads(items, j)
      invariant forall j :: 0 <= j < i ==> RemoteHeadKey(items[j].head) in seen
      invariant forall k :: k in seen ==> exists j :: 0 <= j < i && RemoteHeadKey(items[j].head) == k
    {
      var item := items[i];
      if item.version != QUEUE_VERSION || item.enqueuedAtUnix <= 0 || !Anchorable(item.head) {
        assert !ItemLoads(items, i);
        return false;
      }
      var key := RemoteHeadKey(item.head);
      if key in seen {
        assert !ItemLoads(items, i);
        return false;
      }
      seen := seen + {key};
      for k := 0 to |item.receipts|
        invariant forall m :: 0 <= m < k ==>
                              ReceiptFault(item.receipts[m], item.receipts[m].provider, item.head) == None
      {
        if ReceiptFault(item.receipts[k], item.receipts[k].provider, item.head).Some? {
          assert item.receipts[k] in item.receipts;
          assert !ItemLoads(items, i);
          return false;
        }
      }
      if item.deliveredAtUnix > 0 && |item.receipts| == 0 {
        assert !ItemLoads(items, i);
        return false;
      }
    }
    return true;
  }

  lemma LoadedIsInitial(items: seq<Delivery>)
    requires FileLoads(items)
    ensures Initial(Queue(items, false, None))
  {
    hide Anchorable, RemoteHeadKey, ReceiptFault;
    forall i, j | 0 <= i < j < |items| ensures Heads(items)[i] != Heads(items)[j] {
      assert ItemLoads(items, j);
    }
    forall i | 0 <= i < |items| ensures Anchorable(items[i].head) {
      assert ItemLoads(items, i);
    }
  }

  lemma ReceiptForSelf(r: Receipt, n: string, h: QueueHead)
    requires ReceiptFault(r, n, h) == None
    ensures ReceiptFault(r, r.provider, h) == None
  {
    hide Anchorable, TrimSpace;
  }

  lemma NothingVerified(p: Policy, h: QueueHead)
    requires p.threshold >= 1
    ensures !ThresholdMet(p, h, [])
  {
    NoneVerified(p, h);
  }

  /** What `load` checks of one item, apart from its key. */
  ghost predicate ItemSound(item: Delivery) {
    && item.version == QUEUE_VERSION && item.enqueuedAtUnix > 0
    && (forall r :: r in item.receipts ==> ReceiptFault(r, r.provider, item.head) == None)
    && (item.deliveredAtUnix > 0 ==> item.receipts != [])
  }

  lemma StepSound(s: Setup, q: Queue, step: Step, i: nat)
    requires s.policy.threshold >= 1 && QueueInv(q) && Enabled(s, q, step) && i < |Next(s, q, step).items|
    requires forall k :: 0 <= k < |q.items| ==> ItemSound(q.items[k])
    ensures ItemSound(Next(s, q, step).items[i])
  {
    hide Anchorable, RemoteHeadKey, IsMerge, ThresholdMet, IsNextDue, Settled, ReceiptFault;
    if step.SettleStep? && i == q.flush.value.current.value.index {
      var item := q.items[i];
      MergeSources(item.receipts, step.incoming, step.merged);
      forall r | r in step.merged ensures ReceiptFault(r, r.provider, item.head) == None {
        if r !in item.receipts {
          var n :| n in s.policy.providers && ReceiptFault(r, n, item.head) == None;
          ReceiptForSelf(r, n, item.head);
        }
      }
      NothingVerified(s.policy, item.head);
    }
  }

  /** Whatever a queue reaches from any file that opens, the file it persists opens again: so does the file of every
      restart after it. */
  lemma ReachedReloads(s: Setup, file: seq<Delivery>, states: seq<Queue>, steps: seq<Step>, j: nat)
    requires s.policy.threshold >= 1 && FileLoads(file)
    requires IsRun(s, states, steps) && states[0] == Queue(file, false, None) && j < |states|
    ensures FileLoads(states[j].items)
  {
    hide Anchorable, RemoteHeadKey, Enabled, Next, ReceiptFault;
    ReachedSound(s, file, states, steps, j);
    LoadedIsInitial(file);
    RunKeepsQueue(s, states, steps, j, j);
    var items := states[j].items;
    forall i | 0 <= i < |items| ensures ItemLoads(items, i) {
      forall k | 0 <= k < i ensures RemoteHeadKey(items[k].head) != RemoteHeadKey(items[i].head) {
        assert Heads(items)[k] != Heads(items)[i];
        if RemoteHeadKey(items[k].head) == RemoteHeadKey(items[i].head) {
          RemoteHeadKeyInjective(items[k].head, items[i].head);
        }
      }
    }
  }

  lemma {:induction false} ReachedSound(s: Setup, file: seq<Delivery>, states: seq<Queue>, steps: seq<Step>, j: nat)
    requires s.policy.threshold >= 1 && FileLoads(file)
    requires IsRun(s, states, steps) && states[0] == Queue(file, false, None) && j < |states|
    ensures forall i :: 0 <= i < |states[j].items| ==> ItemSound(states[j].items[i])
    decreases j
  {
    hide Anchorable, RemoteHeadKey, Enabled, Next, ItemSound;
    if j == 0 {
      forall i | 0 <= i < |file| ensures ItemSound(file[i]) { LoadedIsSound(file, i); }
    } else {
      ReachedSound(s, file, states, steps, j - 1);
      LoadedIsInitial(file);
      RunKeepsQueue(s, states, steps, j - 1, j - 1);
      forall i | 0 <= i < |states[j].items| ensures ItemSound(states[j].items[i]) {
        StepSound(s, states[j - 1], steps[j - 1], i);
      }
    }
  }

  lemma LoadedIsSound(file: seq<Delivery>, i: nat)
    requires i < |file| && FileLoads(file)
    ensures ItemSound(file[i])
  {
    hide Anchorable, RemoteHeadKey, ReceiptFault;
    assert ItemLoads(file, i);
  }
}
