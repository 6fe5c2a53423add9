/** Threads that share one query memory pool (akar-common `QueryMemoryPool`), at the
    granularity of the pool's atomic accesses.  Atomics are sequentially consistent
    here, and 64-bit addition wraps around. */
module PoolThreads {
  import opened Numbers

  /** Where a thread stands inside a call of the pool. */
  datatype Thread =
    | Idle
    | GrantLoaded(bytes: nat, grant: nat)   // try_reserve: has read the grant
    | Passed(bytes: nat)                    // try_reserve: the request fitted
    | Added(total: nat)                     // try_reserve: has added, peak not yet raised
    | ReservedLoaded(reserved: nat)         // shrink_to_reserved: has read the reservation

  datatype Pool = Pool(grant: nat, reserved: nat, peak: nat, threads: seq<Thread>)

  datatype Action =
    | LoadGrant(bytes: nat)
    | LoadReserved
    | Add
    | RaisePeak
    | Release(bytes: nat)
    | SetGrant(grant: nat)
    | LoadForShrink
    | SwapGrant

  predicate Enabled(p: Pool, t: nat, a: Action, limit: nat) {
    t < |p.threads| &&
    match a
    case LoadGrant(bytes) => p.threads[t].Idle? && bytes <= limit
    case LoadReserved => p.threads[t].GrantLoaded?
    case Add => p.threads[t].Passed?
    case RaisePeak => p.threads[t].Added?
    case Release(_) => p.threads[t].Idle?
    case SetGrant(grant) => p.threads[t].Idle? && grant < TWO_64
    case LoadForShrink => p.threads[t].Idle?
    case SwapGrant => p.threads[t].ReservedLoaded?
  }

  /** One atomic access of thread `t`, with the local work up to the next one. */
  function Do(p: Pool, t: nat, a: Action, limit: nat): Pool
    requires Enabled(p, t, a, limit)
  {
    var th := p.threads[t];
    match a
    case LoadGrant(bytes) => p.(threads := p.threads[t := GrantLoaded(bytes, p.grant)])
    case LoadReserved =>
      p.(threads := p.threads[t := if th.bytes <= Minus(th.grant, p.reserved) then Passed(th.bytes) else Idle])
    case Add =>
      var total := (p.reserved + th.bytes) % TWO_64;
      p.(reserved := total, threads := p.threads[t := Added(total)])
    case RaisePeak => p.(peak := Max(p.peak, th.total), threads := p.threads[t := Idle])
    case Release(bytes) => p.(reserved := Minus(p.reserved, bytes))
    case SetGrant(grant) => p.(grant := grant)
    case LoadForShrink => p.(threads := p.threads[t := ReservedLoaded(p.reserved)])
    case SwapGrant => p.(grant := th.reserved, threads := p.threads[t := Idle])
  }

  ghost predicate Quiet(p: Pool) {
    forall t | 0 <= t < |p.threads| :: p.threads[t].Idle?
  }

  ghost predicate Start(p: Pool) {
    p.reserved == 0 && p.peak == 0 && p.grant < TWO_64 && Quiet(p)
  }

  ghost predicate Step(p: Pool, p': Pool, limit: nat) {
    exists t, a :: Enabled(p, t, a, limit) && p' == Do(p, t, a, limit)
  }

  ghost predicate StepAt(run: seq<Pool>, limit: nat, i: nat) {
    i + 1 < |run| && Step(run[i], run[i + 1], limit)
  }

  /** Any interleaving: every request is for at most `limit` bytes. */
  ghost predicate Run(run: seq<Pool>, limit: nat) {
    |run| > 0 && Start(run[0]) && forall i: nat | i < |run| - 1 :: StepAt(run, limit, i)
  }

  /** The largest grant and the largest reservation of a run. */
  ghost function MaxGrant(run: seq<Pool>): nat {
    if |run| == 0 then 0 else Max(MaxGrant(run[..|run| - 1]), run[|run| - 1].grant)
  }

  ghost function MaxReserved(run: seq<Pool>): nat {
    if |run| == 0 then 0 else Max(MaxReserved(run[..|run| - 1]), run[|run| - 1].reserved)
  }

  // ------------------------------------------------------------------ sums and maxima over threads

  ghost function Pending(th: Thread): nat {
    if th.Passed? then th.bytes else 0
  }

  ghost function PendingSum(threads: seq<Thread>): nat {
    if |threads| == 0 then 0 else PendingSum(threads[..|threads| - 1]) + Pending(threads[|threads| - 1])
  }

  ghost function AddedMax(threads: seq<Thread>): nat {
    if |threads| == 0 then 0
    else
      var last := threads[|threads| - 1];
      Max(AddedMax(threads[..|threads| - 1]), if last.Added? then last.total else 0)
  }

  lemma {:induction false} PendingUpdate(threads: seq<Thread>, t: nat, th: Thread)
    requires t < |threads|
    ensures PendingSum(threads[t := th]) == PendingSum(threads) - Pending(threads[t]) + Pending(th)
  {
    var n := |threads| - 1;
    if t == n {
      assert threads[t := th][..n] == threads[..n];
    } else {
      PendingUpdate(threads[..n], t, th);
      assert threads[t := th][..n] == threads[..n][t := th];
    }
  }

  lemma {:induction false} PendingBound(threads: seq<Thread>, limit: nat)
    requires forall t | 0 <= t < |threads| && threads[t].Passed? :: threads[t].bytes <= limit
    ensures PendingSum(threads) <= |threads| * limit
  {
    if |threads| > 0 {
      PendingBound(threads[..|threads| - 1], limit);
      assert |threads| * limit == (|threads| - 1) * limit + limit;
    }
  }

  /** All but one thread. */
  lemma PendingOthers(threads: seq<Thread>, t: nat, limit: nat)
    requires t < |threads| && forall t | 0 <= t < |threads| && threads[t].Passed? :: threads[t].bytes <= limit
    ensures PendingSum(threads) - Pending(threads[t]) <= Slack(|threads|, limit)
  {
    var front, back := threads[..t], threads[t + 1..];
    PendingConcat(front, back);
    PendingConcat(front + [threads[t]], back);
    assert threads == front + [threads[t]] + back;
    assert (front + [threads[t]])[..t] == front;
    PendingBound(front + back, limit);
  }

  lemma {:induction false} PendingConcat(a: seq<Thread>, b: seq<Thread>)
    ensures PendingSum(a + b) == PendingSum(a) + PendingSum(b)
  {
    if |b| == 0 {
      assert a + b == a;
    } else {
      var n := |b| - 1;
      PendingConcat(a, b[..n]);
      assert (a + b)[..|a| + n] == a + b[..n];
    }
  }

  lemma {:induction false} AddedUpdate(threads: seq<Thread>, t: nat, th: Thread)
    requires t < |threads|
    ensures Max(AddedMax(threads[t := th]), if threads[t].Added? then threads[t].total else 0)
         == Max(AddedMax(threads), if th.Added? then th.total else 0)
  {
    var n := |threads| - 1;
    if t == n {
      assert threads[t := th][..n] == threads[..n];
    } else {
      AddedUpdate(threads[..n], t, th);
      assert threads[t := th][..n] == threads[..n][t := th];
    }
  }

  // ------------------------------------------------------------------ no thread oversteps by more than one request

  /** One request for every thread but one. */
  ghost function Slack(threads: nat, limit: nat): int {
    (threads - 1) * limit
  }

  /** Requests in flight are within `limit`, every grant read is at most `top`, and
      all that is or will be added stays within `top` and one request per other thread. */
  ghost predicate Bounded(p: Pool, limit: nat, top: nat) {
    && p.grant <= top
    && (forall t | 0 <= t < |p.threads| && p.threads[t].GrantLoaded? ::
       p.threads[t].grant <= top && p.threads[t].bytes <= limit)
    && (forall t | 0 <= t < |p.threads| && p.threads[t].Passed? :: p.threads[t].bytes <= limit)
    && (|p.threads| > 0 ==> p.reserved + PendingSum(p.threads) <= top + Slack(|p.threads|, limit))
  }

  lemma BoundedStep(p: Pool, t: nat, a: Action, limit: nat, top: nat)
    requires Bounded(p, limit, top) && Enabled(p, t, a, limit)
    requires Max(top, Do(p, t, a, limit).grant) + Slack(|p.threads|, limit) < TWO_64
    ensures Bounded(Do(p, t, a, limit), limit, Max(top, Do(p, t, a, limit).grant))
  {
    var p' := Do(p, t, a, limit);
    hide Slack, PendingSum;
    if p'.threads != p.threads {
      PendingUpdate(p.threads, t, p'.threads[t]);
      assert p'.threads == p.threads[t := p'.threads[t]];
      if a.LoadReserved? && p'.threads[t].Passed? {
        PendingOthers(p'.threads, t, limit);
      }
    }
  }

  /** In every interleaving, what is reserved plus what will be added without another
      look stays within the largest grant and one request for every other thread. */
  lemma {:induction false} RunBounded(run: seq<Pool>, limit: nat)
    requires Run(run, limit) && MaxGrant(run) + Slack(|run[0].threads|, limit) < TWO_64
    ensures |run[|run| - 1].threads| == |run[0].threads| && Bounded(run[|run| - 1], limit, MaxGrant(run))
    decreases |run|
  {
    hide Slack, Do, Bounded, Enabled;
    var n := |run| - 1;
    if n == 0 {
      StartBounded(run[0], limit);
      assert run[..0] == [];
    } else {
      var front := run[..n];
      RunPrefix(run, limit);
      assert StepAt(run, limit, n - 1);
      var t, a :| Enabled(run[n - 1], t, a, limit) && run[n] == Do(run[n - 1], t, a, limit);
      RunBounded(front, limit);
      ThreadsKept(run[n - 1], t, a, limit);
      BoundedStep(run[n - 1], t, a, limit, MaxGrant(front));
    }
  }

  lemma StartBounded(p: Pool, limit: nat)
    requires Start(p)
    ensures Bounded(p, limit, p.grant)
  {
    NoPending(p.threads);
  }

  lemma ThreadsKept(p: Pool, t: nat, a: Action, limit: nat)
    requires Enabled(p, t, a, limit)
    ensures |Do(p, t, a, limit).threads| == |p.threads|
  {
  }

  lemma RunPrefix(run: seq<Pool>, limit: nat)
    requires Run(run, limit) && |run| > 1
    ensures Run(run[..|run| - 1], limit)
  {
    hide Step;
    var front := run[..|run| - 1];
    forall i: nat | i < |front| - 1 ensures StepAt(front, limit, i) {
      assert StepAt(run, limit, i);
    }
  }

  lemma {:induction false} NoPending(threads: seq<Thread>)
    requires forall t | 0 <= t < |threads| :: threads[t].Idle?
    ensures PendingSum(threads) == 0 && AddedMax(threads) == 0
  {
    if |threads| > 0 { NoPending(threads[..|threads| - 1]); }
  }

  /** The reservation never exceeds the largest grant by more than one request for
      every thread but one. */
  lemma ReservedBound(run: seq<Pool>, limit: nat)
    requires Run(run, limit) && |run[0].threads| > 0 && MaxGrant(run) + Slack(|run[0].threads|, limit) < TWO_64
    ensures run[|run| - 1].reserved <= MaxGrant(run) + Slack(|run[0].threads|, limit)
  {
    RunBounded(run, limit);
  }

  // ------------------------------------------------------------------ the peak

  lemma PeakStep(p: Pool, t: nat, a: Action, limit: nat, most: nat)
    requires Enabled(p, t, a, limit) && Max(p.peak, AddedMax(p.threads)) == most >= p.reserved
    ensures var p' := Do(p, t, a, limit); Max(p'.peak, AddedMax(p'.threads)) == Max(most, p'.reserved)
  {
    var p' := Do(p, t, a, limit);
    if p'.threads != p.threads {
      AddedUpdate(p.threads, t, p'.threads[t]);
      assert p'.threads == p.threads[t := p'.threads[t]];
      if a.RaisePeak? { AddedAt(p.threads, t); }
      if a.Add? { AddedAt(p'.threads, t); }
    }
  }

  lemma {:induction false} AddedAt(threads: seq<Thread>, t: nat)
    requires t < |threads| && threads[t].Added?
    ensures threads[t].total <= AddedMax(threads)
  {
    if t < |threads| - 1 { AddedAt(threads[..|threads| - 1], t); }
  }

  lemma {:induction false} RunPeak(run: seq<Pool>, limit: nat)
    requires Run(run, limit)
    ensures Max(run[|run| - 1].peak, AddedMax(run[|run| - 1].threads)) == MaxReserved(run) >= run[|run| - 1].reserved
    decreases |run|
  {
    var n := |run| - 1;
    if n == 0 {
      NoPending(run[0].threads);
      assert run[..0] == [];
    } else {
      RunPrefix(run, limit);
      assert StepAt(run, limit, n - 1);
      var t, a :| Enabled(run[n - 1], t, a, limit) && run[n] == Do(run[n - 1], t, a, limit);
      RunPeak(run[..n], limit);
      PeakStep(run[n - 1], t, a, limit, MaxReserved(run[..n]));
    }
  }

  /** When no call is in flight, the recorded peak is the largest reservation ever. */
  lemma PeakExact(run: seq<Pool>, limit: nat)
    requires Run(run, limit) && Quiet(run[|run| - 1])
    ensures run[|run| - 1].peak == MaxReserved(run)
  {
    RunPeak(run, limit);
    NoPending(run[|run| - 1].threads);
  }

  // ------------------------------------------------------------------ the bound is reached

  lemma Extend(run: seq<Pool>, limit: nat, t: nat, a: Action) returns (more: seq<Pool>)
    requires Run(run, limit) && Enabled(run[|run| - 1], t, a, limit)
    ensures Run(more, limit) && |more| == |run| + 1 && more[0] == run[0]
    ensures more[|more| - 1] == Do(run[|run| - 1], t, a, limit)
    ensures MaxGrant(more) == Max(MaxGrant(run), more[|more| - 1].grant)
  {
    hide Enabled, Do;
    var p' := Do(run[|run| - 1], t, a, limit);
    more := run + [p'];
    assert more[..|run|] == run;
    forall i: nat | i < |more| - 1 ensures StepAt(more, limit, i) {
      if i < |run| - 1 { assert StepAt(run, limit, i); }
    }
  }

  lemma AllPass(n: nat, limit: nat, k: nat) returns (run: seq<Pool>)
    requires k <= n && limit < TWO_64
    ensures Run(run, limit) && |run[0].threads| == n && MaxGrant(run) == limit
    ensures run[|run| - 1] == Pool(limit, 0, 0, seq(k, _ => Passed(limit)) + seq(n - k, _ => Idle))
    decreases k
  {
    if k == 0 {
      run := [Pool(limit, 0, 0, seq(n, _ => Idle))];
      assert run[..0] == [];
      assert seq(0, _ => Passed(limit)) + seq(n, _ => Idle) == seq(n, _ => Idle);
    } else {
      var before := AllPass(n, limit, k - 1);
      var t := k - 1;
      var one := Extend(before, limit, t, LoadGrant(limit));
      run := Extend(one, limit, t, LoadReserved);
      var threads := before[|before| - 1].threads;
      assert threads[t := GrantLoaded(limit, limit)][t := Passed(limit)]
        == seq(k, _ => Passed(limit)) + seq(n - k, _ => Idle);
    }
  }

  lemma AllAdd(n: nat, limit: nat, k: nat) returns (run: seq<Pool>)
    requires k <= n && n * limit < TWO_64 && limit < TWO_64
    ensures Run(run, limit) && |run[0].threads| == n && MaxGrant(run) == limit
    ensures var p := run[|run| - 1];
      && |p.threads| == n && p.reserved == k * limit && p.grant == limit
      && forall t | k <= t < n :: p.threads[t] == Passed(limit)
    decreases k
  {
    if k == 0 {
      run := AllPass(n, limit, n);
    } else {
      var before := AllAdd(n, limit, k - 1);
      assert (k - 1) * limit + limit == k * limit <= n * limit by {
        assert n * limit == k * limit + (n - k) * limit;
      }
      run := Extend(before, limit, k - 1, Add);
    }
  }

  /** The bound is tight: `n` threads can reserve `n` requests against a grant of one. */
  lemma ReservedBoundTight(n: nat, limit: nat) returns (run: seq<Pool>)
    requires n > 0 && limit < TWO_64 && n * limit < TWO_64
    ensures Run(run, limit) && |run[0].threads| == n
    ensures run[|run| - 1].reserved == MaxGrant(run) + Slack(n, limit)
  {
    run := AllAdd(n, limit, n);
    assert n * limit == limit + (n - 1) * limit;
  }
}
