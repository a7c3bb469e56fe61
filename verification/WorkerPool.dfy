/** The worker pool behind `executeMap` and `executeReduce`: one sender, any number of workers, an unbuffered job
    channel, a first-error slot and a cancellation flag.  Every interleaving is a run of the steps below. */
module WorkerPool {
  import opened Results

  /** A worker waits for a job, holds one it has not looked at yet, runs it, or has returned. */
  datatype Worker = Idle | Holding(index: nat) | Working(index: nat) | Returned

  datatype Pool<T> = Pool(
    next: nat,                   // the next index to send
    closed: bool,                // the job channel is closed
    workers: seq<Worker>,
    results: seq<Option<T>>,
    finished: seq<nat>,          // the indices in the order they finished
    failed: bool,                // an error is recorded
    cancelled: bool,             // the workers' context is cancelled
    parentDone: bool)            // the caller's context is cancelled

  datatype Step =
    | Hand(w: nat)
    | StopSending
    | CloseJobs
    | Proceed(w: nat)
    | Drop(w: nat)
    | Finish(w: nat)
    | Fail(w: nat)
    | Leave(w: nat)
    | CancelParent

  function Start<T>(jobs: nat, workers: nat): Pool<T> {
    Pool(0, false, seq(workers, _ => Idle), seq(jobs, _ => None), [], false, false, false)
  }

  /** `work(i)` is what job `i` yields, `None` when it cannot succeed.  Any job may fail, for instance because its
      context was cancelled while it ran. */
  predicate Enabled<T>(p: Pool<T>, work: nat -> Option<T>, step: Step) {
    match step
    case Hand(w) => !p.closed && p.next < |p.results| && w < |p.workers| && p.workers[w].Idle?
    case StopSending => !p.closed && p.next < |p.results| && p.cancelled
    case CloseJobs => !p.closed && p.next >= |p.results|
    case Proceed(w) => w < |p.workers| && p.workers[w].Holding? && !p.cancelled
    case Drop(w) => w < |p.workers| && p.workers[w].Holding? && p.cancelled
    case Finish(w) =>
      && w < |p.workers| && p.workers[w].Working?
      && work(p.workers[w].index).Some? && p.workers[w].index < |p.results|
    case Fail(w) => w < |p.workers| && p.workers[w].Working?
    case Leave(w) => w < |p.workers| && p.workers[w].Idle? && p.closed
    case CancelParent => true
  }

  function Next<T>(p: Pool<T>, work: nat -> Option<T>, step: Step): Pool<T>
    requires Enabled(p, work, step)
  {
    match step
    case Hand(w) => p.(workers := p.workers[w := Holding(p.next)], next := p.next + 1)
    case StopSending => p.(closed := true)
    case CloseJobs => p.(closed := true)
    case Proceed(w) => p.(workers := p.workers[w := Working(p.workers[w].index)])
    case Drop(w) => p.(workers := p.workers[w := Returned])
    case Finish(w) =>
      var i := p.workers[w].index;
      p.(workers := p.workers[w := Idle], results := p.results[i := work(i)], finished := p.finished + [i])
    case Fail(w) => p.(workers := p.workers[w := Returned], failed := true, cancelled := true)
    case Leave(w) => p.(workers := p.workers[w := Returned])
    case CancelParent => p.(cancelled := true, parentDone := true)
  }

  ghost predicate IsRun<T>(work: nat -> Option<T>, states: seq<Pool<T>>, steps: seq<Step>) {
    && |states| == |steps| + 1
    && forall k :: 0 <= k < |steps| ==>
                         Enabled(states[k], work, steps[k]) && states[k + 1] == Next(states[k], work, steps[k])
  }

  /** `wg.Wait()` has returned. */
  predicate Terminal<T>(p: Pool<T>) {
    p.closed && forall w :: 0 <= w < |p.workers| ==> p.workers[w].Returned?
  }

  /** Neither an error was recorded nor the caller's context cancelled: the results are used. */
  predicate Succeeded<T>(p: Pool<T>) { Terminal(p) && !p.failed && !p.parentDone }

  // ---------------------------------------------------------------------------------------------
  // What every step keeps

  predicate Has(w: Worker, i: nat) { (w.Holding? || w.Working?) && w.index == i }

  ghost predicate InHand<T>(p: Pool<T>, i: nat) { exists w :: 0 <= w < |p.workers| && Has(p.workers[w], i) }

  /** Jobs in hand were sent, have no result yet, and are in one hand only. */
  ghost predicate HandsInv<T>(p: Pool<T>) {
    && (forall w :: 0 <= w < |p.workers| && (p.workers[w].Holding? || p.workers[w].Working?) ==>
          p.workers[w].index < p.next && p.workers[w].index < |p.results| && p.results[p.workers[w].index].None?)
    && (forall v, w :: 0 <= v < w < |p.workers| && (p.workers[v].Holding? || p.workers[v].Working?) ==>
          !Has(p.workers[w], p.workers[v].index))
  }

  /** The finished list names, without repetition, exactly the jobs that have a result, and results are right. */
  ghost predicate TallyInv<T>(p: Pool<T>, work: nat -> Option<T>) {
    && (forall i :: 0 <= i < |p.results| && p.results[i].Some? ==> i < p.next && p.results[i] == work(i))
    && (forall i: nat :: i in p.finished <==> i < |p.results| && p.results[i].Some?)
    && (forall i, j :: 0 <= i < j < |p.finished| ==> p.finished[i] != p.finished[j])
  }

  /** Until cancellation no sent job is lost. */
  ghost predicate NoLoss<T>(p: Pool<T>) {
    !p.cancelled ==> forall i :: 0 <= i < p.next && i < |p.results| && p.results[i].None? ==> InHand(p, i)
  }

  ghost predicate FlagsInv<T>(p: Pool<T>) {
    && p.next <= |p.results|
    && (p.closed && !p.cancelled ==> p.next == |p.results|)
    && (p.cancelled <==> p.failed || p.parentDone)
    && (forall w :: 0 <= w < |p.workers| && p.workers[w].Returned? ==> p.closed || p.cancelled)
  }

  ghost predicate Inv<T>(p: Pool<T>, work: nat -> Option<T>) {
    FlagsInv(p) && HandsInv(p) && TallyInv(p, work) && NoLoss(p)
  }

  lemma HandKeeps<T>(p: Pool<T>, work: nat -> Option<T>, w: nat)
    requires Inv(p, work) && Enabled(p, work, Hand(w))
    ensures Inv(Next(p, work, Hand(w)), work)
  {
    var q := Next(p, work, Hand(w));
    forall i | 0 <= i < q.next && q.results[i].None? && !q.cancelled ensures InHand(q, i) {
      if i == p.next {
        assert Has(q.workers[w], i);
      } else {
        var v :| 0 <= v < |p.workers| && Has(p.workers[v], i);
        assert Has(q.workers[v], i);
      }
    }
  }

  lemma MoveKeeps<T>(p: Pool<T>, work: nat -> Option<T>, step: Step)
    requires Inv(p, work) && Enabled(p, work, step) && (step.Proceed? || step.Drop? || step.Fail? || step.Leave?)
    ensures Inv(Next(p, work, step), work)
  {
    var q := Next(p, work, step);
    assert TallyInv(q, work);
    MoveHands(p, work, step);
    hide TallyInv, HandsInv;
    forall i | 0 <= i < q.next && q.results[i].None? && !q.cancelled ensures InHand(q, i) {
      var v :| 0 <= v < |p.workers| && Has(p.workers[v], i);
      assert Has(q.workers[v], i);
    }
  }

  lemma MoveHands<T>(p: Pool<T>, work: nat -> Option<T>, step: Step)
    requires HandsInv(p) && Enabled(p, work, step) && (step.Proceed? || step.Drop? || step.Fail? || step.Leave?)
    ensures HandsInv(Next(p, work, step))
  {}

  lemma FinishKeeps<T>(p: Pool<T>, work: nat -> Option<T>, w: nat)
    requires Inv(p, work) && Enabled(p, work, Finish(w))
    ensures Inv(Next(p, work, Finish(w)), work)
  {
    var q := Next(p, work, Finish(w));
    var i := p.workers[w].index;
    assert Has(p.workers[w], i);
    FinishTally(p, work, w);
    forall j | 0 <= j < q.next && q.results[j].None? && !q.cancelled ensures InHand(q, j) {
      assert InHand(p, j);
      var v :| 0 <= v < |p.workers| && Has(p.workers[v], j);
      assert Has(q.workers[v], j);
    }
  }

  lemma FinishTally<T>(p: Pool<T>, work: nat -> Option<T>, w: nat)
    requires Inv(p, work) && Enabled(p, work, Finish(w))
    ensures TallyInv(Next(p, work, Finish(w)), work) && HandsInv(Next(p, work, Finish(w)))
  {
    hide NoLoss;
    var q := Next(p, work, Finish(w));
    var i := p.workers[w].index;
    assert Has(p.workers[w], i) && i !in p.finished;
    forall j: nat ensures j in q.finished <==> j < |q.results| && q.results[j].Some? {}
    forall v | 0 <= v < |p.workers| && v != w ensures !Has(p.workers[v], i) {}
  }

  lemma StepKeeps<T>(p: Pool<T>, work: nat -> Option<T>, step: Step)
    requires Inv(p, work) && Enabled(p, work, step)
    ensures Inv(Next(p, work, step), work)
  {
    hide Inv;
    match step
    case Hand(w) => HandKeeps(p, work, w);
    case Finish(w) => FinishKeeps(p, work, w);
    case StopSending => SenderKeeps(p, work, step);
    case CloseJobs => SenderKeeps(p, work, step);
    case CancelParent => SenderKeeps(p, work, step);
    case _ => MoveKeeps(p, work, step);
  }

  lemma SenderKeeps<T>(p: Pool<T>, work: nat -> Option<T>, step: Step)
    requires Inv(p, work) && Enabled(p, work, step) && (step.StopSending? || step.CloseJobs? || step.CancelParent?)
    ensures Inv(Next(p, work, step), work)
  {
    var q := Next(p, work, step);
    forall i | 0 <= i < q.next && q.results[i].None? && !q.cancelled ensures InHand(q, i) {
      var v :| 0 <= v < |p.workers| && Has(p.workers[v], i);
      assert Has(q.workers[v], i);
    }
  }

  lemma StartInv<T>(jobs: nat, workers: nat, work: nat -> Option<T>)
    ensures Inv(Start(jobs, workers), work)
  {}

  lemma {:induction false} RunKeeps<T>(work: nat -> Option<T>, states: seq<Pool<T>>, steps: seq<Step>, k: nat)
    requires IsRun(work, states, steps) && Inv(states[0], work) && k < |states|
    ensures Inv(states[k], work) && |states[k].results| == |states[0].results|
    ensures |states[k].workers| == |states[0].workers|
  {
    hide Inv;
    if k > 0 {
      RunKeeps(work, states, steps, k - 1);
      StepKeeps(states[k - 1], work, steps[k - 1]);
    }
  }

  // ---------------------------------------------------------------------------------------------
  // Results

  /** Whatever the number of workers and the interleaving, a run that ends without an error has the result of every
      job, each job finished exactly once. */
  lemma SuccessIsComplete<T>(work: nat -> Option<T>, jobs: nat, workers: nat, states: seq<Pool<T>>, steps: seq<Step>)
    requires IsRun(work, states, steps) && states[0] == Start(jobs, workers)
    requires Succeeded(states[|steps|])
    ensures var p := states[|steps|];
            && |p.results| == jobs && (forall i :: 0 <= i < jobs ==> p.results[i].Some? && p.results[i] == work(i))
            && (forall i: nat :: i in p.finished <==> i < jobs) && |p.finished| == jobs
            && forall i, j :: 0 <= i < j < jobs ==> p.finished[i] != p.finished[j]
  {
    StartInv(jobs, workers, work);
    RunKeeps(work, states, steps, |steps|);
    var p := states[|steps|];
    assert p.next == jobs;
    forall i | 0 <= i < jobs ensures p.results[i].Some? {
      assert p.results[i].None? ==> InHand(p, i);
    }
    CountRange(p.finished, jobs);
  }

  /** A list of distinct numbers that are exactly those below `n` has length `n`. */
  lemma {:induction false} CountRange(s: seq<nat>, n: nat)
    requires forall i: nat :: i in s <==> i < n
    requires forall i, j :: 0 <= i < j < |s| ==> s[i] != s[j]
    ensures |s| == n
    decreases n
  {
    if n == 0 {
      if s != [] {
        LastMember(s);
        assert false;
      }
    } else {
      assert n - 1 in s;
      var k :| 0 <= k < |s| && s[k] == n - 1;
      var t := s[..k] + s[k + 1..];
      forall i: nat ensures i in t <==> i < n - 1 {
        if i in s && i != n - 1 {
          var m :| 0 <= m < |s| && s[m] == i;
          assert t[if m < k then m else m - 1] == i;
        }
        if i in t {
          var m :| 0 <= m < |t| && t[m] == i;
          assert s[if m < k then m else m + 1] == i;
        }
      }
      CountRange(t, n - 1);
    }
  }

  lemma LastMember(s: seq<nat>)
    requires s != []
    ensures exists i :: i in s
  {
    assert s[0] in s;
  }

  /** The run returns its results exactly when no job failed and the caller did not cancel. */
  lemma {:induction false} FlagsAreHistory<T>(work: nat -> Option<T>, jobs: nat, workers: nat, states: seq<Pool<T>>,
                                              steps: seq<Step>, k: nat)
    requires IsRun(work, states, steps) && states[0] == Start(jobs, workers) && k < |states|
    ensures states[k].failed <==> exists i :: 0 <= i < k && steps[i].Fail?
    ensures states[k].parentDone <==> exists i :: 0 <= i < k && steps[i].CancelParent?
  {
    if k > 0 {
      FlagsAreHistory(work, jobs, workers, states, steps, k - 1);
      assert states[k] == Next(states[k - 1], work, steps[k - 1]);
    }
  }

  lemma SuccessIffUndisturbed<T>(work: nat -> Option<T>, jobs: nat, workers: nat, states: seq<Pool<T>>,
                                 steps: seq<Step>)
    requires IsRun(work, states, steps) && states[0] == Start(jobs, workers) && Terminal(states[|steps|])
    ensures Succeeded(states[|steps|]) <==> forall i :: 0 <= i < |steps| ==> !steps[i].Fail? && !steps[i].CancelParent?
  {
    FlagsAreHistory(work, jobs, workers, states, steps, |steps|);
  }

  // ---------------------------------------------------------------------------------------------
  // Progress

  function Rank(w: Worker): nat {
    match w
    case Returned => 0
    case Idle => 1
    case Working(_) => 2
    case Holding(_) => 3
  }

  function Ranks(workers: seq<Worker>): nat {
    if workers == [] then 0 else Ranks(workers[..|workers| - 1]) + Rank(workers[|workers| - 1])
  }

  lemma {:induction false} RanksUpdate(workers: seq<Worker>, w: nat, x: Worker)
    requires w < |workers|
    ensures Ranks(workers[w := x]) == Ranks(workers) - Rank(workers[w]) + Rank(x)
  {
    var n := |workers| - 1;
    var updated := workers[w := x];
    if w == n {
      assert updated[..n] == workers[..n];
    } else {
      assert updated[..n] == workers[..n][w := x];
      RanksUpdate(workers[..n], w, x);
    }
  }

  /** The work left: jobs unsent, what the workers still do, and closing the channel. */
  function Measure<T>(p: Pool<T>): int {
    3 * (|p.results| - p.next) + Ranks(p.workers) + if p.closed then 0 else 1
  }

  lemma StepProgresses<T>(p: Pool<T>, work: nat -> Option<T>, step: Step)
    requires Inv(p, work) && Enabled(p, work, step)
    ensures 0 <= Measure(Next(p, work, step))
    ensures if step.CancelParent? then Measure(Next(p, work, step)) == Measure(p)
            else Measure(Next(p, work, step)) < Measure(p)
  {
    hide Inv;
    StepKeeps(p, work, step);
    NextBound(p, work);
    NextBound(Next(p, work, step), work);
    match step
    case Hand(w) => RanksUpdate(p.workers, w, Holding(p.next));
    case Proceed(w) => RanksUpdate(p.workers, w, Working(p.workers[w].index));
    case Drop(w) => RanksUpdate(p.workers, w, Returned);
    case Finish(w) => RanksUpdate(p.workers, w, Idle);
    case Fail(w) => RanksUpdate(p.workers, w, Returned);
    case Leave(w) => RanksUpdate(p.workers, w, Returned);
    case _ =>
  }

  lemma NextBound<T>(p: Pool<T>, work: nat -> Option<T>)
    requires Inv(p, work)
    ensures p.next <= |p.results|
  {}

  function OwnSteps(steps: seq<Step>): nat {
    if steps == [] then 0
    else OwnSteps(steps[..|steps| - 1]) + if steps[|steps| - 1].CancelParent? then 0 else 1
  }

  /** A run takes at most three steps per job, one per worker and one to close the channel. */
  lemma {:induction false} RunsAreBounded<T>(work: nat -> Option<T>, jobs: nat, workers: nat, states: seq<Pool<T>>,
                                             steps: seq<Step>)
    requires IsRun(work, states, steps) && states[0] == Start(jobs, workers)
    ensures OwnSteps(steps) + Measure(states[|steps|]) <= 3 * jobs + workers + 1
    ensures OwnSteps(steps) <= 3 * jobs + workers + 1
  {
    StartInv(jobs, workers, work);
    RunKeeps(work, states, steps, |steps|);
    NextBound(states[|steps|], work);
    if steps == [] {
      IdleRanks(workers);
    } else {
      var n := |steps| - 1;
      assert IsRun(work, states[..n + 1], steps[..n]);
      RunsAreBounded(work, jobs, workers, states[..n + 1], steps[..n]);
      RunKeeps(work, states, steps, n);
      StepProgresses(states[n], work, steps[n]);
    }
  }

  lemma {:induction false} IdleRanks(workers: nat)
    ensures Ranks(seq(workers, _ => Idle)) == workers
  {
    if workers > 0 {
      var s := seq(workers, _ => Idle);
      assert s[..workers - 1] == seq(workers - 1, _ => Idle);
      IdleRanks(workers - 1);
    }
  }

  /** With at least one worker the pool is never stuck: until everyone returned, some step of its own can
      happen, and only a job that cannot succeed has to fail. */
  lemma NeverStuck<T>(p: Pool<T>, work: nat -> Option<T>)
    requires Inv(p, work) && |p.workers| > 0 && !Terminal(p)
    ensures exists step :: Enabled(p, work, step) && !step.CancelParent?
                           && (step.Fail? ==> work(p.workers[step.w].index).None?)
  {
    if w :| 0 <= w < |p.workers| && p.workers[w].Holding? {
      assert Enabled(p, work, if p.cancelled then Drop(w) else Proceed(w));
    } else if w :| 0 <= w < |p.workers| && p.workers[w].Working? {
      assert Enabled(p, work, if work(p.workers[w].index).Some? then Finish(w) else Fail(w));
    } else if w :| 0 <= w < |p.workers| && p.workers[w].Idle? {
      assert Enabled(p, work, if p.closed then Leave(w) else if p.next < |p.results| then Hand(w) else CloseJobs);
    } else {
      assert p.workers[0].Returned?;
      assert Enabled(p, work, if p.next < |p.results| then StopSending else CloseJobs);
    }
  }

  /** An undisturbed pool in which no remaining job has to fail. */
  ghost predicate Willing<T>(work: nat -> Option<T>, p: Pool<T>) {
    && Inv(p, work) && |p.workers| > 0 && !p.cancelled
    && forall i: nat :: i < |p.results| ==> work(i).Some?
  }

  /** Such a pool is finished, or has a step that leaves it such a pool with less to do. */
  lemma WillingStep<T>(work: nat -> Option<T>, p: Pool<T>) returns (step: Step)
    requires Willing(work, p) && !Terminal(p)
    ensures Enabled(p, work, step) && Willing(work, Next(p, work, step))
    ensures 0 <= Measure(Next(p, work, step)) < Measure(p)
  {
    hide Measure, HandsInv, TallyInv, NoLoss;
    NeverStuck(p, work);
    step :| Enabled(p, work, step) && !step.CancelParent? && (step.Fail? ==> work(p.workers[step.w].index).None?);
    StepProgresses(p, work, step);
    StepKeeps(p, work, step);
    if step.Fail? { HeldIndex(p, work, step.w); }
    if step.StopSending? { assert false; }
  }

  lemma HeldIndex<T>(p: Pool<T>, work: nat -> Option<T>, w: nat)
    requires Inv(p, work) && w < |p.workers| && p.workers[w].Working?
    ensures p.workers[w].index < |p.results|
  {}

  /** A step before a run is a run. */
  lemma PrependStep<T>(work: nat -> Option<T>, p: Pool<T>, step: Step, states: seq<Pool<T>>, steps: seq<Step>)
    requires Enabled(p, work, step) && IsRun(work, states, steps) && states[0] == Next(p, work, step)
    ensures IsRun(work, [p] + states, [step] + steps)
  {
    hide Enabled, Next;
    var ss, ts := [p] + states, [step] + steps;
    forall k | 0 <= k < |ts| ensures Enabled(ss[k], work, ts[k]) && ss[k + 1] == Next(ss[k], work, ts[k]) {
      if k > 0 { assert ss[k] == states[k - 1] && ss[k + 1] == states[k] && ts[k] == steps[k - 1]; }
    }
  }

  /** From any undisturbed state, if no remaining job has to fail, the pool can run on to success. */
  lemma {:induction false} CanFinish<T>(work: nat -> Option<T>, p: Pool<T>)
    returns (states: seq<Pool<T>>, steps: seq<Step>)
    requires Inv(p, work) && |p.workers| > 0 && !p.cancelled
    requires forall i: nat :: i < |p.results| ==> work(i).Some?
    ensures IsRun(work, states, steps) && states[0] == p && Succeeded(states[|steps|])
    decreases Measure(p) + 1
  {
    hide Measure, Enabled, Next, HandsInv, TallyInv, NoLoss;
    if Terminal(p) {
      states, steps := [p], [];
    } else {
      var step := WillingStep(work, p);
      var rest, more := CanFinish(work, Next(p, work, step));
      PrependStep(work, p, step, rest, more);
      states, steps := [p] + rest, [step] + more;
    }
  }
}
