/** What a pool's figures say of the calls made: the accounts of every run. */
module GovernorAccounts {
  import opened Numbers
  import opened Governor

  // ------------------------------------------------------------------ what the calls ask for

  /** What the call has granted to pool `id`: the bytes asked for, if they fit. */
  function Granted(s: State, c: Call, id: nat): nat {
    match c
    case Reserving(i, bytes) =>
      if i < |s.pools| && s.pools[i].id == id && s.pools[i].reserved + bytes <= s.pools[i].grant then bytes else 0
    case _ => 0
  }

  /** What the call has given back of pool `id`: no more than was reserved. */
  function GivenBack(s: State, c: Call, id: nat): nat {
    match c
    case Releasing(i, bytes) =>
      if i < |s.pools| && s.pools[i].id == id then
        if bytes <= s.pools[i].reserved then bytes else s.pools[i].reserved
      else 0
    case _ => 0
  }

  /** The call sets the grant of pool `id` below what is reserved. */
  predicate Undercuts(s: State, c: Call, id: nat) {
    match c
    case Regranting(i, grant) => i < |s.pools| && s.pools[i].id == id && grant < s.pools[i].reserved
    case _ => false
  }

  ghost function GrantedBy(run: seq<State>, calls: seq<(Policy, Call)>, id: nat, n: nat): nat
    requires n <= |calls| && n <= |run|
  {
    if n == 0 then 0 else GrantedBy(run, calls, id, n - 1) + Granted(run[n - 1], calls[n - 1].1, id)
  }

  ghost function GivenBackBy(run: seq<State>, calls: seq<(Policy, Call)>, id: nat, n: nat): nat
    requires n <= |calls| && n <= |run|
  {
    if n == 0 then 0 else GivenBackBy(run, calls, id, n - 1) + GivenBack(run[n - 1], calls[n - 1].1, id)
  }

  ghost predicate Has(s: State, p: PoolState) {
    p in s.pools
  }

  // ------------------------------------------------------------------ one call

  /** A pool that was there before the call, and what the call has done to its figures. */
  ghost predicate Follows(s: State, c: Call, p: PoolState, q: PoolState) {
    && p.id == q.id
    && q.reserved + GivenBack(s, c, p.id) == p.reserved + Granted(s, c, p.id)
    && q.peak == Max(p.peak, q.reserved)
    && (p.reserved <= p.grant && !Undercuts(s, c, p.id) ==> q.reserved <= q.grant)
  }

  ghost predicate New(s: State, q: PoolState) {
    q.id == s.nextId && q.reserved == 0 && q.peak == 0
  }

  /** Ids tell pools apart. */
  lemma SamePool(s: State, i: nat, j: nat)
    requires Sound(s) && i < |s.pools| && j < |s.pools| && s.pools[i].id == s.pools[j].id
    ensures i == j
  {
  }

  ghost predicate PeakCovers(s: State) {
    forall i | 0 <= i < |s.pools| :: s.pools[i].reserved <= s.pools[i].peak
  }

  lemma FollowReserve(s: State, i: nat, bytes: nat, j: nat)
    requires Sound(s) && PeakCovers(s) && i < |s.pools| && j < |s.pools|
    ensures Follows(s, Reserving(i, bytes), s.pools[j], s.pools[i := Reserve(s.pools[i], bytes)][j])
  {
    if s.pools[i].id == s.pools[j].id { SamePool(s, i, j); }
  }

  lemma FollowRelease(s: State, i: nat, bytes: nat, j: nat)
    requires Sound(s) && PeakCovers(s) && i < |s.pools| && j < |s.pools|
    ensures Follows(s, Releasing(i, bytes), s.pools[j], s.pools[i := Release(s.pools[i], bytes)][j])
  {
    if s.pools[i].id == s.pools[j].id { SamePool(s, i, j); }
  }

  lemma FollowRegrant(s: State, i: nat, grant: nat, j: nat)
    requires Sound(s) && PeakCovers(s) && i < |s.pools| && j < |s.pools|
    ensures Follows(s, Regranting(i, grant), s.pools[j], s.pools[i := Regrant(s.pools[i], grant)][j])
  {
    if s.pools[i].id == s.pools[j].id { SamePool(s, i, j); }
  }

  lemma FollowReclaim(s: State, k: nat, q: PoolState)
    requires Sound(s) && PeakCovers(s) && Has(Reclaim(s, k), q)
    ensures exists p :: Has(s, p) && Follows(s, Reclaiming(k), p, q)
  {
    if k == 0 {
      assert Follows(s, Reclaiming(k), q, q);
    } else {
      var live := Live(s.pools);
      LiveFacts(s.pools);
      hide Live, Shrunk;
      var j :| 0 <= j < |live| && Shrunk(live, k)[j] == q;
      ShrunkAt(live, k, j);
      assert live[j] in live;
      assert Has(s, live[j]) && Follows(s, Reclaiming(k), live[j], q);
    }
  }

  /** Every pool after a call is new or follows from one before it. */
  lemma CallFollows(s: State, policy: Policy, c: Call, q: PoolState)
    requires Sound(s) && PeakCovers(s) && Possible(s, c) && Has(Do(s, policy, c), q)
    ensures New(s, q) || exists p :: Has(s, p) && Follows(s, c, p, q)
  {
    hide Sound, Follows, Reclaim, Reserve, Release, Regrant;
    if c.Reclaiming? {
      FollowReclaim(s, c.k, q);
    } else {
      var j :| 0 <= j < |Do(s, policy, c).pools| && Do(s, policy, c).pools[j] == q;
      if j < |s.pools| {
        if c.Reserving? {
          FollowReserve(s, c.i, c.bytes, j);
        } else if c.Releasing? {
          FollowRelease(s, c.i, c.bytes, j);
        } else if c.Regranting? {
          FollowRegrant(s, c.i, c.grant, j);
        } else {
          FollowElse(s, c, s.pools[j], q);
        }
        assert Has(s, s.pools[j]);
      }
    }
  }

  lemma FollowElse(s: State, c: Call, p: PoolState, q: PoolState)
    requires PeakCovers(s) && p in s.pools && !c.Reserving? && !c.Releasing? && !c.Regranting?
    requires q == p || q == p.(alive := false)
    ensures Follows(s, c, p, q)
  {
  }

  // ------------------------------------------------------------------ runs

  lemma CoversNext(s: State, policy: Policy, c: Call)
    requires Sound(s) && PeakCovers(s) && Possible(s, c)
    ensures PeakCovers(Do(s, policy, c))
  {
    hide Sound, Do, Possible;
    var t := Do(s, policy, c);
    forall i | 0 <= i < |t.pools| ensures t.pools[i].reserved <= t.pools[i].peak {
      assert Has(t, t.pools[i]);
      CallFollows(s, policy, c, t.pools[i]);
    }
  }

  lemma {:induction false} RunCovers(run: seq<State>, calls: seq<(Policy, Call)>, n: nat)
    requires Run(run, calls) && n < |run|
    ensures Sound(run[n]) && PeakCovers(run[n])
    decreases n
  {
    hide Sound, Do, Possible;
    RunSound(run, calls, n);
    if n > 0 {
      RunCovers(run, calls, n - 1);
      assert StepAt(run, calls, n - 1);
      CoversNext(run[n - 1], calls[n - 1].0, calls[n - 1].1);
    }
  }

  lemma NextIdGrows(run: seq<State>, calls: seq<(Policy, Call)>, n: nat)
    requires Run(run, calls) && n < |calls|
    ensures run[n].nextId <= run[n + 1].nextId
  {
    RunSound(run, calls, n);
    assert StepAt(run, calls, n);
    hide Sound;
    SoundStep(run[n], calls[n].0, calls[n].1);
  }

  lemma Absent(s: State, c: Call, id: nat)
    requires Sound(s) && s.nextId <= id
    ensures Granted(s, c, id) == 0 && GivenBack(s, c, id) == 0 && forall p | Has(s, p) :: p.id != id
  {
    forall p | Has(s, p) ensures p.id != id {
      var i :| 0 <= i < |s.pools| && s.pools[i] == p;
    }
  }

  /** Before a pool is granted there is nothing on its account. */
  lemma {:induction false} NotYet(run: seq<State>, calls: seq<(Policy, Call)>, id: nat, n: nat)
    requires Run(run, calls) && n < |run| && run[n].nextId <= id
    ensures GrantedBy(run, calls, id, n) == 0 && GivenBackBy(run, calls, id, n) == 0
    ensures forall k: nat, p | k <= n && Has(run[k], p) :: p.id != id
    decreases n
  {
    RunSound(run, calls, n);
    Absent(run[n], Reclaiming(0), id);
    if n > 0 {
      NextIdGrows(run, calls, n - 1);
      NotYet(run, calls, id, n - 1);
      RunSound(run, calls, n - 1);
      Absent(run[n - 1], calls[n - 1].1, id);
    }
  }

  /** What is reserved and what was given back is what was granted. */
  lemma {:induction false} Accounts(run: seq<State>, calls: seq<(Policy, Call)>, n: nat, q: PoolState)
    requires Run(run, calls) && n < |run| && Has(run[n], q)
    ensures q.reserved + GivenBackBy(run, calls, q.id, n) == GrantedBy(run, calls, q.id, n)
    decreases n
  {
    if n > 0 {
      RunCovers(run, calls, n - 1);
      assert StepAt(run, calls, n - 1);
      hide Sound, Do, Possible, Run;
      CallFollows(run[n - 1], calls[n - 1].0, calls[n - 1].1, q);
      if New(run[n - 1], q) {
        NotYet(run, calls, q.id, n - 1);
        Absent(run[n - 1], calls[n - 1].1, q.id);
      } else {
        var p :| Has(run[n - 1], p) && Follows(run[n - 1], calls[n - 1].1, p, q);
        Accounts(run, calls, n - 1, p);
      }
    }
  }

  ghost predicate Held(run: seq<State>, k: nat, id: nat, bytes: nat) {
    k < |run| && exists p :: Has(run[k], p) && p.id == id && p.reserved == bytes
  }

  /** The peak is the largest reservation the pool has had. */
  lemma {:induction false} PeakIsLargest(run: seq<State>, calls: seq<(Policy, Call)>, n: nat, q: PoolState)
    requires Run(run, calls) && n < |run| && Has(run[n], q)
    ensures forall k: nat, p | k <= n && Has(run[k], p) && p.id == q.id :: p.reserved <= q.peak
    ensures exists k: nat :: k <= n && Held(run, k, q.id, q.peak)
    decreases n
  {
    hide Sound, Do, Possible;
    RunCovers(run, calls, n);
    forall p | Has(run[n], p) && p.id == q.id ensures p == q { OnlyOne(run[n], p, q); }
    if n > 0 {
      RunCovers(run, calls, n - 1);
      assert StepAt(run, calls, n - 1);
      hide Run, PeakCovers;
      CallFollows(run[n - 1], calls[n - 1].0, calls[n - 1].1, q);
      if New(run[n - 1], q) {
        NotYet(run, calls, q.id, n - 1);
        assert Held(run, n, q.id, q.peak);
      } else {
        var p :| Has(run[n - 1], p) && Follows(run[n - 1], calls[n - 1].1, p, q);
        PeakIsLargest(run, calls, n - 1, p);
        if q.peak != p.peak {
          assert Held(run, n, q.id, q.peak);
        }
      }
    }
  }

  lemma OnlyOne(s: State, p: PoolState, q: PoolState)
    requires Sound(s) && Has(s, p) && Has(s, q) && p.id == q.id
    ensures p == q
  {
    var i :| 0 <= i < |s.pools| && s.pools[i] == p;
    var j :| 0 <= j < |s.pools| && s.pools[j] == q;
    SamePool(s, i, j);
  }

  /** The reservation stays within the grant unless a call sets the grant below it. */
  lemma {:induction false} WithinGrant(run: seq<State>, calls: seq<(Policy, Call)>, n: nat, q: PoolState)
    requires Run(run, calls) && n < |run| && Has(run[n], q)
    requires forall k: nat | k < n :: !Undercuts(run[k], calls[k].1, q.id)
    ensures q.reserved <= q.grant
    decreases n
  {
    if n > 0 {
      RunCovers(run, calls, n - 1);
      assert StepAt(run, calls, n - 1);
      hide Sound, Do, Possible, Run;
      CallFollows(run[n - 1], calls[n - 1].0, calls[n - 1].1, q);
      if !New(run[n - 1], q) {
        var p :| Has(run[n - 1], p) && Follows(run[n - 1], calls[n - 1].1, p, q);
        WithinGrant(run, calls, n - 1, p);
      }
    }
  }

  // ------------------------------------------------------------------ shares and verdicts

  /** A new pool gets the even share, rounded down: as many bytes as every active query,
      the new one included, can have of the threshold. */
  lemma ShareIsEven(s: State, threshold: nat)
    ensures var t := Grant(s, threshold);
      && t.active == s.active + 1 && |t.pools| == |s.pools| + 1 && t.pools[..|s.pools|] == s.pools
      && var grant := t.pools[|s.pools|].grant;
         grant * t.active <= threshold < (grant + 1) * t.active
  {
    var n, share := s.active + 1, threshold / (s.active + 1);
    assert threshold == n * share + threshold % n;
  }

  /** A query is admitted exactly when pressure, cap and floor all allow it; what is refused
      is counted. */
  lemma AdmittedExactly(s: State, policy: Policy, pressure: real, threshold: nat)
    ensures var t := Admit(s, policy, pressure, threshold);
      && (|t.pools| > |s.pools| <==>
            && (policy.admitMaxPressure.Some? ==> pressure < policy.admitMaxPressure.value)
            && (policy.admitMaxConcurrent > 0 ==> s.active < policy.admitMaxConcurrent)
            && policy.admitMinGrant * (s.active + 1) <= threshold)
      && (|t.pools| > |s.pools| ==> t.active == s.active + 1 && t.rejected == s.rejected)
      && (|t.pools| <= |s.pools| ==> t == s.(rejected := s.rejected + 1))
  {
    var n, share, floor := s.active + 1, threshold / (s.active + 1), policy.admitMinGrant;
    assert threshold == n * share + threshold % n;
    FloorMet(threshold, n, share, floor);
  }

  lemma FloorMet(threshold: nat, n: nat, share: nat, floor: nat)
    requires n > 0 && n * share <= threshold < n * share + n
    ensures share >= floor <==> floor * n <= threshold
  {
    if share >= floor {
      assert n * share == floor * n + n * (share - floor);
      Product(n, share - floor);
    } else {
      assert floor * n == n * share + n + n * (floor - share - 1);
      Product(n, floor - share - 1);
    }
  }

  lemma Product(a: nat, b: nat)
    ensures a * b >= 0
  {
  }

  ghost function Refusals(run: seq<State>, calls: seq<(Policy, Call)>, n: nat): nat
    requires n <= |calls| && n < |run|
  {
    if n == 0 then 0
    else
      Refusals(run, calls, n - 1)
      + if calls[n - 1].1.Admitting? && |run[n].pools| == |run[n - 1].pools| then 1 else 0
  }

  /** In every run, `rejected` counts the queries that the gate turned away. */
  lemma {:induction false} RefusalsCounted(run: seq<State>, calls: seq<(Policy, Call)>, n: nat)
    requires Run(run, calls) && n <= |calls|
    ensures run[n].rejected == Refusals(run, calls, n)
  {
    if n > 0 {
      RefusalsCounted(run, calls, n - 1);
      assert StepAt(run, calls, n - 1);
    }
  }
}
