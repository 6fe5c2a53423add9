/** What shrinking a grant does to a pool that threads share: how far the reservation
    can go beyond the grants that callers set, and when it can still grow. */
module PoolShrink {
  import opened Numbers
  import opened PoolThreads

  type Acts = seq<(nat, Action)>

  ghost predicate StepBy(run: seq<Pool>, acts: Acts, limit: nat, i: nat) {
    && i < |acts| && i + 1 < |run|
    && Enabled(run[i], acts[i].0, acts[i].1, limit) && run[i + 1] == Do(run[i], acts[i].0, acts[i].1, limit)
  }

  /** A run with the access made at each step. */
  ghost predicate RunBy(run: seq<Pool>, acts: Acts, limit: nat) {
    |run| == |acts| + 1 && Start(run[0]) && forall i: nat | i < |acts| :: StepBy(run, acts, limit, i)
  }

  /** Every run is one with some accesses. */
  lemma {:induction false} RunHasActs(run: seq<Pool>, limit: nat) returns (acts: Acts)
    requires Run(run, limit)
    ensures RunBy(run, acts, limit)
    decreases |run|
  {
    hide Enabled, Do;
    if |run| == 1 {
      acts := [];
    } else {
      var n := |run| - 1;
      RunPrefix(run, limit);
      var front := RunHasActs(run[..n], limit);
      assert StepAt(run, limit, n - 1);
      var t, a :| Enabled(run[n - 1], t, a, limit) && run[n] == Do(run[n - 1], t, a, limit);
      acts := front + [(t, a)];
      forall i: nat | i < |acts| ensures StepBy(run, acts, limit, i) {
        if i < |front| { assert StepBy(run[..n], front, limit, i); }
      }
    }
  }

  /** How many shrinks have taken effect. */
  ghost function Shrinks(acts: Acts): nat {
    if |acts| == 0 then 0 else Shrinks(acts[..|acts| - 1]) + if acts[|acts| - 1].1.SwapGrant? then 1 else 0
  }

  /** The largest grant a caller has set, the initial one included. */
  ghost function CallerGrant(first: nat, acts: Acts): nat {
    if |acts| == 0 then first
    else
      var a := acts[|acts| - 1].1;
      var rest := CallerGrant(first, acts[..|acts| - 1]);
      if a.SetGrant? then Max(rest, a.grant) else rest
  }

  // ------------------------------------------------------------------ the bound by caller-set grants

  ghost function Reach(base: nat, j: nat, slack: nat): nat {
    base + j * slack
  }

  lemma ReachNext(base: nat, j: nat, slack: nat)
    ensures Reach(base, j + 1, slack) == Reach(base, j, slack) + slack
  {
  }

  lemma ReachMono(base: nat, base': nat, j: nat, slack: nat)
    requires base <= base'
    ensures Reach(base, j, slack) <= Reach(base', j, slack)
  {
  }

  /** Grants in sight are at most `low`; reservations in sight at most `high`. */
  ghost predicate Held(p: Pool, limit: nat, low: nat, high: nat) {
    && Bounded(p, limit, low) && p.reserved + PendingSum(p.threads) <= high
    && (forall t | 0 <= t < |p.threads| && p.threads[t].ReservedLoaded? :: p.threads[t].reserved <= high)
  }

  lemma HeldStep(p: Pool, t: nat, a: Action, limit: nat, low: nat, high: nat)
    requires Held(p, limit, low, high) && Enabled(p, t, a, limit) && !a.SwapGrant? && (a.SetGrant? ==> a.grant <= low)
    requires high == low + Slack(|p.threads|, limit) < TWO_64
    ensures Held(Do(p, t, a, limit), limit, low, high)
  {
    hide Slack, PendingSum, Bounded;
    var p' := Do(p, t, a, limit);
    GrantKept(p, t, a, limit, low);
    BoundedStep(p, t, a, limit, low);
    ThreadsKept(p, t, a, limit);
    BoundedReserved(p', limit, low);
    forall u | 0 <= u < |p'.threads| && p'.threads[u].ReservedLoaded? ensures p'.threads[u].reserved <= high {
      if u != t { assert p'.threads[u] == p.threads[u]; }
    }
  }

  lemma GrantKept(p: Pool, t: nat, a: Action, limit: nat, low: nat)
    requires Bounded(p, limit, low) && Enabled(p, t, a, limit) && !a.SwapGrant? && (a.SetGrant? ==> a.grant <= low)
    ensures Do(p, t, a, limit).grant <= low
  {
  }

  lemma BoundedReserved(p: Pool, limit: nat, low: nat)
    requires Bounded(p, limit, low) && |p.threads| > 0
    ensures p.reserved + PendingSum(p.threads) <= low + Slack(|p.threads|, limit)
  {
  }

  lemma BoundedMono(p: Pool, limit: nat, low: nat, low': nat)
    requires Bounded(p, limit, low) && low <= low'
    ensures Bounded(p, limit, low')
  {
  }

  /** A shrink puts a reservation that was read in the place of the grant. */
  lemma HeldSwap(p: Pool, t: nat, limit: nat, low: nat, high: nat)
    requires Held(p, limit, low, high) && Enabled(p, t, SwapGrant, limit)
    requires high == low + Slack(|p.threads|, limit) && high + Slack(|p.threads|, limit) < TWO_64
    ensures Held(Do(p, t, SwapGrant, limit), limit, high, high + Slack(|p.threads|, limit))
  {
    hide PendingSum, Bounded;
    var p' := Do(p, t, SwapGrant, limit);
    assert p'.grant == p.threads[t].reserved <= high;
    SlackPositive(|p.threads|, limit);
    hide Slack;
    BoundedMono(p, limit, low, high);
    assert Max(high, p'.grant) == high;
    BoundedStep(p, t, SwapGrant, limit, high);
    ThreadsKept(p, t, SwapGrant, limit);
    BoundedReserved(p', limit, high);
  }

  lemma SlackPositive(n: nat, limit: nat)
    requires n > 0
    ensures Slack(n, limit) >= 0
  {
  }

  lemma ActsPrefix(run: seq<Pool>, acts: Acts, limit: nat)
    requires RunBy(run, acts, limit) && |acts| > 0
    ensures RunBy(run[..|acts|], acts[..|acts| - 1], limit)
    ensures StepBy(run, acts, limit, |acts| - 1)
  {
    hide Enabled, Do;
    var n := |acts| - 1;
    forall i: nat | i < n ensures StepBy(run[..|acts|], acts[..n], limit, i) {
      assert StepBy(run, acts, limit, i);
    }
  }

  lemma {:induction false} RunHeld(run: seq<Pool>, acts: Acts, limit: nat, slack: nat)
    requires RunBy(run, acts, limit) && |run[0].threads| > 0 && slack == Slack(|run[0].threads|, limit)
    requires Reach(CallerGrant(run[0].grant, acts), Shrinks(acts) + 1, slack) < TWO_64
    ensures |run[|acts|].threads| == |run[0].threads|
    ensures var base, j := CallerGrant(run[0].grant, acts), Shrinks(acts);
      Held(run[|acts|], limit, Reach(base, j, slack), Reach(base, j + 1, slack))
    decreases |acts|
  {
    hide Slack, Held, Do, Enabled, Reach;
    var n := |acts|;
    if n == 0 {
      StartHeld(run[0], limit, slack);
    } else {
      var front, t, a := acts[..n - 1], acts[n - 1].0, acts[n - 1].1;
      ActsPrefix(run, acts, limit);
      var base, j := CallerGrant(run[0].grant, front), Shrinks(front);
      var base', j' := CallerGrant(run[0].grant, acts), Shrinks(acts);
      ReachNext(base, j, slack);
      ReachNext(base', j, slack);
      ReachNext(base', j + 1, slack);
      ReachMono(base, base', j, slack);
      ReachMono(base, base', j + 1, slack);
      RunHeld(run[..n], front, limit, slack);
      var p := run[n - 1];
      ThreadsKept(p, t, a, limit);
      if a.SwapGrant? {
        HeldSwap(p, t, limit, Reach(base, j, slack), Reach(base, j + 1, slack));
      } else {
        HeldMono(p, limit, Reach(base, j, slack), Reach(base, j + 1, slack), Reach(base', j, slack),
                 Reach(base', j + 1, slack));
        SetWithin(base', a, j, slack);
        HeldStep(p, t, a, limit, Reach(base', j, slack), Reach(base', j + 1, slack));
      }
    }
  }

  lemma SetWithin(base: nat, a: Action, j: nat, slack: nat)
    requires a.SetGrant? ==> a.grant <= base
    ensures a.SetGrant? ==> a.grant <= Reach(base, j, slack)
  {
  }

  lemma HeldMono(p: Pool, limit: nat, low: nat, high: nat, low': nat, high': nat)
    requires Held(p, limit, low, high) && low <= low' && high <= high'
    ensures Held(p, limit, low', high')
  {
  }

  lemma StartHeld(p: Pool, limit: nat, slack: nat)
    requires Start(p)
    ensures Held(p, limit, Reach(p.grant, 0, slack), Reach(p.grant, 1, slack))
  {
    NoPending(p.threads);
    StartBounded(p, limit);
  }

  /** With `j` shrinks, the reservation stays within the largest grant a caller has set
      and `j + 1` times one request for every thread but one. */
  lemma CallerBound(run: seq<Pool>, acts: Acts, limit: nat)
    requires RunBy(run, acts, limit) && |run[0].threads| > 0
    requires CallerGrant(run[0].grant, acts) + (Shrinks(acts) + 1) * Slack(|run[0].threads|, limit) < TWO_64
    ensures run[|acts|].reserved
      <= CallerGrant(run[0].grant, acts) + (Shrinks(acts) + 1) * Slack(|run[0].threads|, limit)
  {
    SlackPositive(|run[0].threads|, limit);
    hide Slack, RunBy;
    RunHeld(run, acts, limit, Slack(|run[0].threads|, limit));
  }

  /** Without a shrink, or with one thread, the grants callers set bound the reservation. */
  lemma UnshrunkBound(run: seq<Pool>, acts: Acts, limit: nat)
    requires RunBy(run, acts, limit) && |run[0].threads| > 0 && (Shrinks(acts) == 0 || |run[0].threads| == 1)
    requires CallerGrant(run[0].grant, acts) + Slack(|run[0].threads|, limit) < TWO_64
    ensures run[|acts|].reserved <= CallerGrant(run[0].grant, acts) + Slack(|run[0].threads|, limit)
  {
    var slack := Slack(|run[0].threads|, limit);
    assert (Shrinks(acts) + 1) * slack == slack;
    CallerBound(run, acts, limit);
  }

  // ------------------------------------------------------------------ the bound is reached

  lemma More(run: seq<Pool>, acts: Acts, limit: nat, t: nat, a: Action) returns (run': seq<Pool>, acts': Acts)
    requires RunBy(run, acts, limit) && Enabled(run[|acts|], t, a, limit)
    ensures RunBy(run', acts', limit) && acts' == acts + [(t, a)] && run' == run + [Do(run[|acts|], t, a, limit)]
    ensures Shrinks(acts') == Shrinks(acts) + (if a.SwapGrant? then 1 else 0)
    ensures !a.SetGrant? ==> CallerGrant(run[0].grant, acts') == CallerGrant(run[0].grant, acts)
  {
    hide Enabled, Do;
    run', acts' := run + [Do(run[|acts|], t, a, limit)], acts + [(t, a)];
    assert acts'[..|acts|] == acts;
    forall i: nat | i < |acts'| ensures StepBy(run', acts', limit, i) {
      if i < |acts| { assert StepBy(run, acts, limit, i); }
    }
  }

  /** The run goes on without a caller setting a grant. */
  ghost predicate Continues(run: seq<Pool>, acts: Acts, run': seq<Pool>, acts': Acts, limit: nat, shrinks: nat) {
    && RunBy(run, acts, limit) && RunBy(run', acts', limit) && run'[0] == run[0]
    && CallerGrant(run[0].grant, acts') == CallerGrant(run[0].grant, acts)
    && Shrinks(acts') == Shrinks(acts) + shrinks && |run'[|acts'|].threads| == |run[|acts|].threads|
  }

  ghost predicate From(p: Pool, k: nat, th: Thread) {
    forall t | k <= t < |p.threads| :: p.threads[t] == th
  }

  /** With room for one request, every thread passes the check before any adds. */
  lemma {:induction false} PassAll(run: seq<Pool>, acts: Acts, limit: nat, k: nat)
      returns (run': seq<Pool>, acts': Acts)
    requires RunBy(run, acts, limit)
    requires var p := run[|acts|]; k <= |p.threads| && p.grant == p.reserved + limit && From(p, k, Idle)
    requires forall t | 0 <= t < k :: run[|acts|].threads[t] == Passed(limit)
    ensures Continues(run, acts, run', acts', limit, 0)
    ensures var p, q := run[|acts|], run'[|acts'|];
      q.grant == p.grant && q.reserved == p.reserved && From(q, 0, Passed(limit))
    decreases |run[|acts|].threads| - k
  {
    assert |run| == |acts| + 1;
    hide RunBy;
    if k == |run[|acts|].threads| {
      run', acts' := run, acts;
    } else {
      var r1, a1 := More(run, acts, limit, k, LoadGrant(limit));
      var r2, a2 := More(r1, a1, limit, k, LoadReserved);
      run', acts' := PassAll(r2, a2, limit, k + 1);
    }
  }

  lemma {:induction false} AddAll(run: seq<Pool>, acts: Acts, limit: nat, k: nat, left: nat)
      returns (run': seq<Pool>, acts': Acts)
    requires RunBy(run, acts, limit)
    requires var p := run[|acts|]; k <= |p.threads| && From(p, k, Passed(limit)) && left == (|p.threads| - k) * limit
    requires forall t | 0 <= t < k :: run[|acts|].threads[t].Added?
    requires run[|acts|].reserved + left < TWO_64
    ensures Continues(run, acts, run', acts', limit, 0)
    ensures var p, q := run[|acts|], run'[|acts'|];
      && q.grant == p.grant && q.reserved == p.reserved + left && forall t | 0 <= t < |q.threads| :: q.threads[t].Added?
    decreases |run[|acts|].threads| - k
  {
    assert |run| == |acts| + 1;
    hide RunBy;
    var n := |run[|acts|].threads|;
    if k == n {
      run', acts' := run, acts;
    } else {
      OneLess(n - k, limit);
      var r1, a1 := More(run, acts, limit, k, Add);
      run', acts' := AddAll(r1, a1, limit, k + 1, left - limit);
    }
  }

  lemma OneLess(n: nat, limit: nat)
    requires n > 0
    ensures n * limit - limit == (n - 1) * limit >= 0
  {
  }

  lemma {:induction false} FinishAll(run: seq<Pool>, acts: Acts, limit: nat, k: nat)
      returns (run': seq<Pool>, acts': Acts)
    requires RunBy(run, acts, limit) && k <= |run[|acts|].threads|
    requires forall t | 0 <= t < k :: run[|acts|].threads[t].Idle?
    requires forall t | k <= t < |run[|acts|].threads| :: run[|acts|].threads[t].Added?
    ensures Continues(run, acts, run', acts', limit, 0)
    ensures var p, q := run[|acts|], run'[|acts'|]; q.grant == p.grant && q.reserved == p.reserved && From(q, 0, Idle)
    decreases |run[|acts|].threads| - k
  {
    assert |run| == |acts| + 1;
    hide RunBy;
    if k == |run[|acts|].threads| {
      run', acts' := run, acts;
    } else {
      var r1, a1 := More(run, acts, limit, k, RaisePeak);
      run', acts' := FinishAll(r1, a1, limit, k + 1);
    }
  }

  /** After `j` shrinks, all threads idle and room for one request. */
  ghost predicate RoundStart(run: seq<Pool>, acts: Acts, n: nat, limit: nat, slack: nat, j: nat) {
    && RunBy(run, acts, limit) && Shrinks(acts) == j && CallerGrant(run[0].grant, acts) == limit
    && var p := run[|acts|];
       && |run[0].threads| == |p.threads| == n && From(p, 0, Idle)
       && p.reserved == j * slack && p.grant == limit + j * slack
  }

  /** Every thread passes, then every thread adds. */
  lemma FillRound(run: seq<Pool>, acts: Acts, n: nat, limit: nat, slack: nat, j: nat)
      returns (run': seq<Pool>, acts': Acts)
    requires n > 0 && slack == (n - 1) * limit && RoundStart(run, acts, n, limit, slack, j)
    requires limit + (j + 1) * slack < TWO_64
    ensures Continues(run, acts, run', acts', limit, 0)
    ensures run'[|acts'|].reserved == limit + (j + 1) * slack && run'[|acts'|].grant == limit + j * slack
    ensures forall t | 0 <= t < n :: run'[|acts'|].threads[t].Added?
  {
    assert |run| == |acts| + 1;
    hide RunBy;
    var r1, a1 := PassAll(run, acts, limit, 0);
    assert |r1| == |a1| + 1 by { RunSize(r1, a1, limit); }
    RoundSum(n, limit, slack, j);
    run', acts' := AddAll(r1, a1, limit, 0, n * limit);
  }

  lemma RunSize(run: seq<Pool>, acts: Acts, limit: nat)
    requires RunBy(run, acts, limit)
    ensures |run| == |acts| + 1
  {
  }

  lemma RoundSum(n: nat, limit: nat, slack: nat, j: nat)
    requires n > 0 && slack == (n - 1) * limit
    ensures n * limit == limit + slack && (j + 1) * slack == j * slack + slack
  {
  }

  /** A shrink that reads the full reservation, and one request given back. */
  lemma NextRound(run: seq<Pool>, acts: Acts, n: nat, limit: nat, slack: nat, j: nat)
      returns (run': seq<Pool>, acts': Acts)
    requires n > 0 && slack == (n - 1) * limit && RoundStart(run, acts, n, limit, slack, j)
    requires limit + (j + 1) * slack < TWO_64
    ensures RoundStart(run', acts', n, limit, slack, j + 1)
  {
    var r1, a1 := FillRound(run, acts, n, limit, slack, j);
    var r2, a2 := FinishAll(r1, a1, limit, 0);
    assert |r1| == |a1| + 1 && |r2| == |a2| + 1;
    hide RunBy;
    var r3, a3 := More(r2, a2, limit, 0, LoadForShrink);
    var r4, a4 := More(r3, a3, limit, 0, SwapGrant);
    run', acts' := More(r4, a4, limit, 0, Release(limit));
  }

  lemma {:induction false} Rounds(n: nat, limit: nat, slack: nat, j: nat) returns (run: seq<Pool>, acts: Acts)
    requires n > 0 && limit < TWO_64 && slack == (n - 1) * limit && limit + j * slack < TWO_64
    ensures RoundStart(run, acts, n, limit, slack, j)
    decreases j
  {
    if j == 0 {
      run, acts := [Pool(limit, 0, 0, seq(n, _ => Idle))], [];
    } else {
      RoundSum(n, limit, slack, j - 1);
      run, acts := Rounds(n, limit, slack, j - 1);
      run, acts := NextRound(run, acts, n, limit, slack, j - 1);
    }
  }

  lemma LastRound(n: nat, limit: nat, slack: nat, j: nat) returns (run: seq<Pool>, acts: Acts)
    requires n > 0 && limit < TWO_64 && slack == (n - 1) * limit && limit + (j + 1) * slack < TWO_64
    ensures RunBy(run, acts, limit) && |run[0].threads| == n && Shrinks(acts) == j
    ensures CallerGrant(run[0].grant, acts) == limit && run[|acts|].reserved == limit + (j + 1) * slack
  {
    RoundSum(n, limit, slack, j);
    var r, a := Rounds(n, limit, slack, j);
    RunSize(r, a, limit);
    hide RunBy, Shrinks, CallerGrant, From;
    run, acts := FillRound(r, a, n, limit, slack, j);
    RunSize(run, acts, limit);
  }

  /** That bound is tight for every number of threads, request size and number of shrinks. */
  lemma CallerBoundTight(n: nat, limit: nat, j: nat) returns (run: seq<Pool>, acts: Acts)
    requires n > 0 && limit < TWO_64 && limit + (j + 1) * ((n - 1) * limit) < TWO_64
    ensures RunBy(run, acts, limit) && |run[0].threads| == n && Shrinks(acts) == j
    ensures run[|acts|].reserved == CallerGrant(run[0].grant, acts) + (j + 1) * Slack(n, limit)
  {
    hide RunBy, Shrinks, CallerGrant;
    var slack := (n - 1) * limit;
    assert slack == Slack(n, limit);
    run, acts := LastRound(n, limit, slack, j);
    RunSize(run, acts, limit);
  }

  /** Two threads, requests of one byte, a grant of one byte and one shrink: three bytes
      are reserved, more than the grant and one request for the other thread. */
  lemma CallerBoundBroken() returns (run: seq<Pool>, acts: Acts)
    ensures RunBy(run, acts, 1) && |run[0].threads| == 2 && Shrinks(acts) == 1
    ensures CallerGrant(run[0].grant, acts) == 1 && run[|acts|].reserved == 3
  {
    run, acts := LastRound(2, 1, 1, 1);
  }

  // ------------------------------------------------------------------ after a shrink

  /** No bytes are given back and no grant is set. */
  predicate Holding(a: Action) {
    !a.Release? && !a.SetGrant?
  }

  ghost predicate HoldStep(p: Pool, q: Pool, limit: nat) {
    exists t, a :: Enabled(p, t, a, limit) && Holding(a) && q == Do(p, t, a, limit)
  }

  ghost predicate HoldAt(path: seq<Pool>, limit: nat, i: nat) {
    i + 1 < |path| && HoldStep(path[i], path[i + 1], limit)
  }

  ghost predicate HoldPath(path: seq<Pool>, limit: nat) {
    |path| > 0 && forall i: nat | i < |path| - 1 :: HoldAt(path, limit, i)
  }

  /** Some continuation in which nothing is given back changes the reservation. */
  ghost predicate CanGrow(p: Pool, limit: nat) {
    exists path: seq<Pool> :: HoldPath(path, limit) && path[0] == p && path[|path| - 1].reserved != p.reserved
  }

  /** The thread is about to add bytes, or to put a grant above the reservation. */
  ghost predicate Underway(p: Pool, th: Thread) {
    match th
    case Passed(bytes) => bytes > 0
    case GrantLoaded(bytes, grant) => 0 < bytes <= Minus(grant, p.reserved)
    case ReservedLoaded(reserved) => reserved > p.reserved
    case _ => false
  }

  ghost predicate Open(p: Pool) {
    p.grant > p.reserved || exists t: nat :: t < |p.threads| && Underway(p, p.threads[t])
  }

  /** Counters are words, requests are within the limit. */
  ghost predicate Sane(p: Pool, limit: nat) {
    && p.reserved < TWO_64 && limit < TWO_64
    && (forall t | 0 <= t < |p.threads| && p.threads[t].Passed? :: p.threads[t].bytes <= limit)
    && (forall t | 0 <= t < |p.threads| && p.threads[t].GrantLoaded? :: p.threads[t].bytes <= limit)
  }

  lemma ClosedStep(p: Pool, t: nat, a: Action, limit: nat)
    requires Sane(p, limit) && !Open(p) && Enabled(p, t, a, limit) && Holding(a)
    ensures var q := Do(p, t, a, limit); Sane(q, limit) && !Open(q) && q.reserved == p.reserved
  {
    var q := Do(p, t, a, limit);
    assert !Underway(p, p.threads[t]);
    forall u: nat | u < |q.threads| ensures !Underway(q, q.threads[u]) {
      if u != t { assert !Underway(p, p.threads[u]); }
    }
  }

  lemma {:induction false} ClosedPath(path: seq<Pool>, limit: nat, i: nat)
    requires HoldPath(path, limit) && Sane(path[0], limit) && !Open(path[0]) && i < |path|
    ensures Sane(path[i], limit) && !Open(path[i]) && path[i].reserved == path[0].reserved
    decreases i
  {
    hide Sane, Open, Enabled, Do;
    if i > 0 {
      ClosedPath(path, limit, i - 1);
      assert HoldAt(path, limit, i - 1);
      var t, a :| Enabled(path[i - 1], t, a, limit) && Holding(a) && path[i] == Do(path[i - 1], t, a, limit);
      ClosedStep(path[i - 1], t, a, limit);
    }
  }

  lemma HoldMore(path: seq<Pool>, limit: nat, t: nat, a: Action) returns (more: seq<Pool>)
    requires HoldPath(path, limit) && Enabled(path[|path| - 1], t, a, limit) && Holding(a)
    ensures HoldPath(more, limit) && more[0] == path[0] && more[|more| - 1] == Do(path[|path| - 1], t, a, limit)
  {
    hide Enabled, Do;
    more := path + [Do(path[|path| - 1], t, a, limit)];
    forall i: nat | i < |more| - 1 ensures HoldAt(more, limit, i) {
      if i < |path| - 1 { assert HoldAt(path, limit, i); }
    }
  }

  /** A thread that has passed with a positive request makes the reservation grow. */
  lemma GrowsByAdd(path: seq<Pool>, p: Pool, limit: nat, t: nat)
    requires HoldPath(path, limit) && path[0] == p && path[|path| - 1].reserved == p.reserved < TWO_64
    requires var q := path[|path| - 1]; t < |q.threads| && q.threads[t].Passed? && 0 < q.threads[t].bytes < TWO_64
    ensures CanGrow(p, limit)
  {
    var more := HoldMore(path, limit, t, Add);
    var q := path[|path| - 1];
    WrapsElsewhere(p.reserved, q.threads[t].bytes);
    assert more[|more| - 1].reserved != p.reserved;
  }

  lemma WrapsElsewhere(x: nat, b: nat)
    requires x < TWO_64 && 0 < b < TWO_64
    ensures (x + b) % TWO_64 != x
  {
    if x + b >= TWO_64 { assert (x + b) % TWO_64 == x + b - TWO_64; }
  }

  /** An idle thread takes one byte of a grant above the reservation. */
  lemma GrowsByRequest(path: seq<Pool>, p: Pool, limit: nat, t: nat)
    requires HoldPath(path, limit) && path[0] == p && path[|path| - 1].reserved == p.reserved < TWO_64 && limit > 0
    requires var q := path[|path| - 1]; q.grant > q.reserved && t < |q.threads| && q.threads[t].Idle?
    ensures CanGrow(p, limit)
  {
    var one := HoldMore(path, limit, t, LoadGrant(1));
    var two := HoldMore(one, limit, t, LoadReserved);
    GrowsByAdd(two, p, limit, t);
  }

  /** After a shrink, while nothing is given back and no grant is set, the reservation
      can change exactly when the grant written exceeds it or another call that can
      still add to it is underway. */
  lemma ShrinkStops(p: Pool, t: nat, limit: nat)
    requires Sane(p, limit) && limit > 0 && Enabled(p, t, SwapGrant, limit)
    ensures var q := Do(p, t, SwapGrant, limit); CanGrow(q, limit) <==> Open(q)
  {
    var q := Do(p, t, SwapGrant, limit);
    assert q.threads[t].Idle?;
    if CanGrow(q, limit) && !Open(q) {
      var path: seq<Pool> :| HoldPath(path, limit) && path[0] == q && path[|path| - 1].reserved != q.reserved;
      ClosedPath(path, limit, |path| - 1);
      assert false;
    }
    if Open(q) {
      OpenGrows(q, limit, t);
    }
  }

  lemma OpenGrows(q: Pool, limit: nat, t: nat)
    requires Sane(q, limit) && limit > 0 && t < |q.threads| && q.threads[t].Idle? && Open(q)
    ensures CanGrow(q, limit)
  {
    hide CanGrow, HoldPath;
    assert HoldPath([q], limit) by { OnePool(q, limit); }
    if q.grant > q.reserved {
      GrowsByRequest([q], q, limit, t);
    } else {
      var u: nat :| u < |q.threads| && Underway(q, q.threads[u]);
      match q.threads[u] {
        case Passed(bytes) => GrowsByAdd([q], q, limit, u);
        case GrantLoaded(bytes, grant) =>
          var path := HoldMore([q], limit, u, LoadReserved);
          GrowsByAdd(path, q, limit, u);
        case ReservedLoaded(reserved) =>
          var path := HoldMore([q], limit, u, SwapGrant);
          GrowsByRequest(path, q, limit, u);
      }
    }
  }

  lemma OnePool(p: Pool, limit: nat)
    ensures HoldPath([p], limit)
  {
  }

  lemma SaneStep(p: Pool, t: nat, a: Action, limit: nat)
    requires Sane(p, limit) && Enabled(p, t, a, limit)
    ensures Sane(Do(p, t, a, limit), limit)
  {
    var q := Do(p, t, a, limit);
    assert forall u | 0 <= u < |q.threads| && u != t :: q.threads[u] == p.threads[u];
  }

  /** Every state of a run is one that `ShrinkStops` speaks of. */
  lemma {:induction false} RunSane(run: seq<Pool>, acts: Acts, limit: nat)
    requires RunBy(run, acts, limit) && limit < TWO_64
    ensures Sane(run[|acts|], limit)
    decreases |acts|
  {
    hide Sane, Do, Enabled;
    if |acts| == 0 {
      StartSane(run[0], limit);
    } else {
      ActsPrefix(run, acts, limit);
      RunSane(run[..|acts|], acts[..|acts| - 1], limit);
      SaneStep(run[|acts| - 1], acts[|acts| - 1].0, acts[|acts| - 1].1, limit);
    }
  }

  lemma StartSane(p: Pool, limit: nat)
    requires Start(p) && limit < TWO_64
    ensures Sane(p, limit)
  {
  }

  lemma TwoThreads(a: Thread, b: Thread, c: Thread)
    ensures [a, b][0 := c] == [c, b] && [a, b][1 := c] == [a, c]
  {
  }

  lemma PassingSteps()
    ensures var p, q := Pool(1, 0, 0, [Idle, Idle]), Pool(1, 0, 0, [GrantLoaded(1, 1), Idle]);
      Enabled(p, 0, LoadGrant(1), 1) && Do(p, 0, LoadGrant(1), 1) == q
    ensures var p, q := Pool(1, 0, 0, [GrantLoaded(1, 1), Idle]), Pool(1, 0, 0, [Passed(1), Idle]);
      Enabled(p, 0, LoadReserved, 1) && Do(p, 0, LoadReserved, 1) == q
  {
    TwoThreads(Idle, Idle, GrantLoaded(1, 1));
    TwoThreads(GrantLoaded(1, 1), Idle, Passed(1));
  }

  lemma ShrinkingSteps()
    ensures var p, q := Pool(1, 0, 0, [Passed(1), Idle]), Pool(1, 0, 0, [Passed(1), ReservedLoaded(0)]);
      Enabled(p, 1, LoadForShrink, 1) && Do(p, 1, LoadForShrink, 1) == q
    ensures var p, q := Pool(1, 0, 0, [Passed(1), ReservedLoaded(0)]), Pool(0, 0, 0, [Passed(1), Idle]);
      Enabled(p, 1, SwapGrant, 1) && Do(p, 1, SwapGrant, 1) == q
    ensures var p, q := Pool(0, 0, 0, [Passed(1), Idle]), Pool(0, 1, 0, [Added(1), Idle]);
      Enabled(p, 0, Add, 1) && Do(p, 0, Add, 1) == q
  {
    TwoThreads(Passed(1), Idle, ReservedLoaded(0));
    TwoThreads(Passed(1), ReservedLoaded(0), Idle);
    TwoThreads(Passed(1), Idle, Added(1));
  }

  lemma IdleStart()
    ensures RunBy([Pool(1, 0, 0, [Idle, Idle])], [], 1)
  {
  }

  /** A request that passed before a shrink is granted after it: the grant is down to the
      reservation of nothing, and one byte is reserved. */
  lemma AddsAfterShrink() returns (run: seq<Pool>, acts: Acts)
    ensures RunBy(run, acts, 1) && |acts| == 5 && acts[3].1 == SwapGrant && acts[4].1 == Add
    ensures run[4].grant == 0 && run[4].reserved == 0 && run[5].grant == 0 && run[5].reserved == 1
  {
    hide RunBy, Enabled, Do, Shrinks, CallerGrant;
    IdleStart();
    PassingSteps();
    ShrinkingSteps();
    run, acts := [Pool(1, 0, 0, [Idle, Idle])], [];
    run, acts := More(run, acts, 1, 0, LoadGrant(1));
    run, acts := More(run, acts, 1, 0, LoadReserved);
    run, acts := More(run, acts, 1, 1, LoadForShrink);
    run, acts := More(run, acts, 1, 1, SwapGrant);
    run, acts := More(run, acts, 1, 0, Add);
  }
}
