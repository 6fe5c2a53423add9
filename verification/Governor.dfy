/** The memory governor (akar-common `MemoryGovernor`) under non-overlapping calls:
    what each call does to the registered pools, and what holds in every run. */
module Governor {
  import opened Graphs
  import opened Numbers

  // ------------------------------------------------------------------ values

  datatype PoolState = PoolState(id: nat, grant: nat, reserved: nat, peak: nat, alive: bool)

  function Headroom(p: PoolState): nat {
    Minus(p.grant, p.reserved)
  }

  function Reserve(p: PoolState, bytes: nat): PoolState {
    if bytes <= Headroom(p) then p.(reserved := p.reserved + bytes, peak := Max(p.peak, p.reserved + bytes)) else p
  }

  function Release(p: PoolState, bytes: nat): PoolState {
    p.(reserved := Minus(p.reserved, bytes))
  }

  function Regrant(p: PoolState, grant: nat): PoolState {
    p.(grant := grant)
  }

  function Shrink(p: PoolState): PoolState {
    p.(grant := p.reserved)
  }

  /** `admitMaxPressure` is `None` for an infinite ceiling. */
  datatype Policy = Policy(admitMaxPressure: Option<real>, admitMaxConcurrent: nat, admitMinGrant: nat,
                           reclaimPressure: real)

  datatype State = State(active: nat, nextId: nat, rejected: nat, pools: seq<PoolState>)

  /** Why a query was refused, with the figures and the policy's bound. */
  datatype Rejection =
    | MemoryPressure(pressure: real, maxPressure: real)
    | TooManyConcurrentQueries(active: nat, maxConcurrent: nat)
    | InsufficientHeadroom(grant: nat, minGrant: nat)

  const FRESH := State(0, 1, 0, [])

  function Grant(s: State, threshold: nat): State {
    State(s.active + 1, s.nextId + 1, s.rejected,
          s.pools + [PoolState(s.nextId, threshold / (s.active + 1), 0, 0, true)])
  }

  function Verdict(s: State, policy: Policy, pressure: real, threshold: nat): Option<Rejection> {
    var share := threshold / (s.active + 1);
    if policy.admitMaxPressure.Some? && pressure >= policy.admitMaxPressure.value then
      Some(MemoryPressure(pressure, policy.admitMaxPressure.value))
    else if policy.admitMaxConcurrent > 0 && s.active >= policy.admitMaxConcurrent then
      Some(TooManyConcurrentQueries(s.active, policy.admitMaxConcurrent))
    else if policy.admitMinGrant > 0 && share < policy.admitMinGrant then
      Some(InsufficientHeadroom(share, policy.admitMinGrant))
    else None
  }

  function Admit(s: State, policy: Policy, pressure: real, threshold: nat): State {
    if Verdict(s, policy, pressure, threshold).None? then Grant(s, threshold) else s.(rejected := s.rejected + 1)
  }

  function Live(pools: seq<PoolState>): seq<PoolState> {
    if |pools| == 0 then []
    else Live(pools[..|pools| - 1]) + if pools[|pools| - 1].alive then [pools[|pools| - 1]] else []
  }

  /** The `k` youngest pools with headroom lose it. */
  function Shrunk(pools: seq<PoolState>, k: nat): (r: seq<PoolState>)
    ensures |r| == |pools|
  {
    if |pools| == 0 || k == 0 then pools
    else
      var front, last := pools[..|pools| - 1], pools[|pools| - 1];
      if Headroom(last) > 0 then Shrunk(front, k - 1) + [Shrink(last)] else Shrunk(front, k) + [last]
  }

  function Reclaim(s: State, k: nat): State {
    if k == 0 then s else s.(pools := Shrunk(Live(s.pools), k))
  }

  function Drop(s: State, i: nat): State
    requires i < |s.pools| && s.pools[i].alive && s.active > 0
  {
    s.(active := s.active - 1, pools := s.pools[i := s.pools[i].(alive := false)])
  }

  function LiveCount(pools: seq<PoolState>): nat {
    if |pools| == 0 then 0 else LiveCount(pools[..|pools| - 1]) + if pools[|pools| - 1].alive then 1 else 0
  }

  function HeadroomSum(pools: seq<PoolState>): nat {
    if |pools| == 0 then 0 else HeadroomSum(pools[..|pools| - 1]) + Headroom(pools[|pools| - 1])
  }

  /** How many pools still have headroom. */
  function Candidates(pools: seq<PoolState>): nat {
    if |pools| == 0 then 0 else Candidates(pools[..|pools| - 1]) + if Headroom(pools[|pools| - 1]) > 0 then 1 else 0
  }

  // ------------------------------------------------------------------ runs

  datatype Call =
    | Granting(threshold: nat)
    | Admitting(pressure: real, threshold: nat)
    | Reclaiming(k: nat)
    | Dropping(i: nat)
    | Reserving(i: nat, bytes: nat)
    | Releasing(i: nat, bytes: nat)
    | Regranting(i: nat, grant: nat)

  /** Pools are used and dropped only while they are alive. */
  predicate Possible(s: State, c: Call) {
    match c
    case Dropping(i) => i < |s.pools| && s.pools[i].alive && s.active > 0
    case Reserving(i, _) => i < |s.pools| && s.pools[i].alive
    case Releasing(i, _) => i < |s.pools| && s.pools[i].alive
    case Regranting(i, _) => i < |s.pools| && s.pools[i].alive
    case _ => true
  }

  function Do(s: State, policy: Policy, c: Call): State
    requires Possible(s, c)
  {
    match c
    case Granting(threshold) => Grant(s, threshold)
    case Admitting(pressure, threshold) => Admit(s, policy, pressure, threshold)
    case Reclaiming(k) => Reclaim(s, k)
    case Dropping(i) => Drop(s, i)
    case Reserving(i, bytes) => s.(pools := s.pools[i := Reserve(s.pools[i], bytes)])
    case Releasing(i, bytes) => s.(pools := s.pools[i := Release(s.pools[i], bytes)])
    case Regranting(i, grant) => s.(pools := s.pools[i := Regrant(s.pools[i], grant)])
  }

  ghost predicate StepAt(run: seq<State>, calls: seq<(Policy, Call)>, i: nat) {
    && i < |calls| && i + 1 < |run|
    && Possible(run[i], calls[i].1) && run[i + 1] == Do(run[i], calls[i].0, calls[i].1)
  }

  /** A run of calls, each under the policy in force at the time. */
  ghost predicate Run(run: seq<State>, calls: seq<(Policy, Call)>) {
    |run| == |calls| + 1 && run[0] == FRESH && forall i: nat | i < |calls| :: StepAt(run, calls, i)
  }

  /** Active queries are the live pools; ids are issued in ascending order. */
  ghost predicate Sound(s: State) {
    && s.active == LiveCount(s.pools) && s.nextId > 0
    && Below(s.pools, s.nextId) && Ascending(s.pools)
  }

  lemma {:induction false} LiveCountUpdate(pools: seq<PoolState>, i: nat, p: PoolState)
    requires i < |pools|
    ensures LiveCount(pools[i := p]) == LiveCount(pools) - (if pools[i].alive then 1 else 0) + if p.alive then 1 else 0
  {
    var n := |pools| - 1;
    if i == n {
      assert pools[i := p][..n] == pools[..n];
    } else {
      LiveCountUpdate(pools[..n], i, p);
      assert pools[i := p][..n] == pools[..n][i := p];
    }
  }

  /** Pruning keeps the live pools and their order. */
  lemma {:induction false} LiveFacts(pools: seq<PoolState>)
    ensures LiveCount(Live(pools)) == LiveCount(pools) == |Live(pools)|
    ensures forall p :: p in Live(pools) <==> p in pools && p.alive
    decreases |pools|
  {
    if |pools| > 0 {
      var front, last := pools[..|pools| - 1], pools[|pools| - 1];
      LiveFacts(front);
      var l := Live(front);
      assert pools == front + [last];
      assert (l + [last])[..|l|] == l;
      assert l + [] == l;
    }
  }

  ghost predicate Ascending(pools: seq<PoolState>) {
    forall i, j | 0 <= i < j < |pools| :: pools[i].id < pools[j].id
  }

  ghost predicate Below(pools: seq<PoolState>, bound: nat) {
    forall i | 0 <= i < |pools| :: 0 < pools[i].id < bound
  }

  lemma {:induction false} LiveBelow(pools: seq<PoolState>, bound: nat)
    requires Below(pools, bound)
    ensures Below(Live(pools), bound)
    decreases |pools|
  {
    if |pools| > 0 { LiveBelow(pools[..|pools| - 1], bound); }
  }

  lemma {:induction false} LiveAscending(pools: seq<PoolState>)
    requires Ascending(pools) && forall i | 0 <= i < |pools| :: 0 < pools[i].id
    ensures Ascending(Live(pools))
    decreases |pools|
  {
    if |pools| > 0 {
      var front, last := pools[..|pools| - 1], pools[|pools| - 1];
      LiveAscending(front);
      LiveBelow(front, last.id);
    }
  }

  /** Reclaim touches no reservation and no id. */
  lemma {:induction false} ShrunkAt(pools: seq<PoolState>, k: nat, i: nat)
    requires i < |pools|
    ensures Shrunk(pools, k)[i] == pools[i] || Shrunk(pools, k)[i] == Shrink(pools[i])
    decreases |pools|
  {
    if k > 0 && i < |pools| - 1 {
      ShrunkAt(pools[..|pools| - 1], if Headroom(pools[|pools| - 1]) > 0 then k - 1 else k, i);
    }
  }

  lemma {:induction false} ShrunkCounts(pools: seq<PoolState>, k: nat)
    ensures LiveCount(Shrunk(pools, k)) == LiveCount(pools)
    ensures Candidates(Shrunk(pools, k)) == Minus(Candidates(pools), k)
    ensures HeadroomSum(Shrunk(pools, k)) <= HeadroomSum(pools)
    decreases |pools|
  {
    if |pools| > 0 && k > 0 {
      var front, last := pools[..|pools| - 1], pools[|pools| - 1];
      var k' := if Headroom(last) > 0 then k - 1 else k;
      ShrunkCounts(front, k');
      assert Shrunk(pools, k)[..|front|] == Shrunk(front, k');
    }
  }

  /** It lowers `k` grants, or all that can be lowered. */
  lemma ShrunkFacts(pools: seq<PoolState>, k: nat)
    ensures forall i | 0 <= i < |pools| :: Shrunk(pools, k)[i] == pools[i] || Shrunk(pools, k)[i] == Shrink(pools[i])
    ensures LiveCount(Shrunk(pools, k)) == LiveCount(pools)
    ensures Candidates(Shrunk(pools, k)) == Minus(Candidates(pools), k)
    ensures HeadroomSum(Shrunk(pools, k)) <= HeadroomSum(pools)
  {
    hide Shrunk;
    ShrunkCounts(pools, k);
    forall i | 0 <= i < |pools| ensures Shrunk(pools, k)[i] == pools[i] || Shrunk(pools, k)[i] == Shrink(pools[i]) {
      ShrunkAt(pools, k, i);
    }
  }

  lemma {:induction false} ShrunkLater(pools: seq<PoolState>, k: nat, i: nat, j: nat)
    requires i < j < |pools| && Headroom(pools[i]) > 0 && Headroom(pools[j]) > 0
    requires Headroom(Shrunk(pools, k)[i]) == 0
    ensures Headroom(Shrunk(pools, k)[j]) == 0
    decreases |pools|
  {
    if k > 0 && j < |pools| - 1 {
      var front, last := pools[..|pools| - 1], pools[|pools| - 1];
      ShrunkLater(front, if Headroom(last) > 0 then k - 1 else k, i, j);
    }
  }

  /** The pools that lose their headroom are the youngest that have any: of two with
      headroom, if the one of the smaller id loses it, so does the other. */
  lemma ShrunkYoungest(pools: seq<PoolState>, k: nat, i: nat, j: nat)
    requires Ascending(pools) && i < |pools| && j < |pools| && pools[i].id < pools[j].id
    requires Headroom(pools[i]) > 0 && Headroom(pools[j]) > 0 && Headroom(Shrunk(pools, k)[i]) == 0
    ensures Headroom(Shrunk(pools, k)[j]) == 0
  {
    hide Shrunk, Headroom;
    assert i < j;
    ShrunkLater(pools, k, i, j);
  }

  // ------------------------------------------------------------------ after a shrink

  function Reserves(p: PoolState, requests: seq<nat>): PoolState {
    if |requests| == 0 then p else Reserve(Reserves(p, requests[..|requests| - 1]), requests[|requests| - 1])
  }

  /** Without headroom, requests leave grant and reservation alone, and a request is
      granted exactly if it is for no bytes. */
  lemma {:induction false} NoHeadroomRefuses(p: PoolState, requests: seq<nat>, bytes: nat)
    requires Headroom(p) == 0
    ensures var q := Reserves(p, requests);
      q.grant == p.grant && q.reserved == p.reserved && (bytes <= Headroom(q) <==> bytes == 0)
    decreases |requests|
  {
    if |requests| > 0 {
      NoHeadroomRefuses(p, requests[..|requests| - 1], requests[|requests| - 1]);
    }
  }

  /** After a shrink, whatever has been requested since, a request is granted exactly if
      it is for no bytes; a release makes room for what it gives back. */
  lemma ShrinkRefuses(p: PoolState, requests: seq<nat>, bytes: nat, released: nat)
    ensures var q := Reserves(Shrink(p), requests);
      && (bytes <= Headroom(q) <==> bytes == 0)
      && (bytes <= Headroom(Release(q, released)) <==> bytes <= released && bytes <= p.reserved)
  {
    NoHeadroomRefuses(Shrink(p), requests, bytes);
  }

  /** A grant below the reservation comes of setting it there, and then too a request
      for no bytes is granted. */
  lemma GrantBelowReservation(policy: Policy) returns (run: seq<State>, calls: seq<(Policy, Call)>)
    ensures Run(run, calls) && |calls| == 3 && |run[3].pools| == 1
    ensures var p := run[3].pools[0]; p.alive && p.grant == 1 && p.reserved == 5 && Headroom(p) == 0
  {
    calls := [(policy, Granting(10)), (policy, Reserving(0, 5)), (policy, Regranting(0, 1))];
    var s1 := Do(FRESH, policy, calls[0].1);
    var s2 := Do(s1, policy, calls[1].1);
    run := [FRESH, s1, s2, Do(s2, policy, calls[2].1)];
    forall i: nat | i < |calls| ensures StepAt(run, calls, i) { }
  }

  lemma SoundStep(s: State, policy: Policy, c: Call)
    requires Sound(s) && Possible(s, c)
    ensures Sound(Do(s, policy, c)) && Do(s, policy, c).nextId >= s.nextId
  {
    hide LiveCount, Live, Shrunk;
    match c {
      case Granting(threshold) => SoundGrant(s, threshold);
      case Admitting(pressure, threshold) => SoundGrant(s, threshold);
      case Reclaiming(k) => SoundReclaim(s, k);
      case Dropping(i) => SoundUpdate(s, i, s.pools[i].(alive := false));
      case Reserving(i, bytes) => SoundUpdate(s, i, Reserve(s.pools[i], bytes));
      case Releasing(i, bytes) => SoundUpdate(s, i, Release(s.pools[i], bytes));
      case Regranting(i, grant) => SoundUpdate(s, i, Regrant(s.pools[i], grant));
    }
  }

  lemma SoundUpdate(s: State, i: nat, p: PoolState)
    requires Sound(s) && i < |s.pools| && s.pools[i].alive && p.id == s.pools[i].id
    ensures s.active > 0 && Sound(s.(active := if p.alive then s.active else s.active - 1, pools := s.pools[i := p]))
  {
    hide LiveCount;
    LiveCountUpdate(s.pools, i, p);
    LiveCountUpdate(s.pools, i, s.pools[i].(alive := false));
  }

  lemma SoundGrant(s: State, threshold: nat)
    requires Sound(s)
    ensures Sound(Grant(s, threshold))
  {
    var s' := Grant(s, threshold);
    assert s'.pools[..|s.pools|] == s.pools;
  }

  lemma SoundReclaim(s: State, k: nat)
    requires Sound(s)
    ensures Sound(Reclaim(s, k))
  {
    hide Live, Shrunk, LiveCount, HeadroomSum, Candidates;
    if k > 0 {
      LiveFacts(s.pools);
      LiveBelow(s.pools, s.nextId);
      LiveAscending(s.pools);
      ShrunkFacts(Live(s.pools), k);
    }
  }

  /** In every run of calls, active queries are the live pools and ids ascend. */
  lemma {:induction false} RunSound(run: seq<State>, calls: seq<(Policy, Call)>, i: nat)
    requires Run(run, calls) && i < |run|
    ensures Sound(run[i])
    decreases i
  {
    if i > 0 {
      RunSound(run, calls, i - 1);
      assert StepAt(run, calls, i - 1);
      SoundStep(run[i - 1], calls[i - 1].0, calls[i - 1].1);
    }
  }

  /** Where queries come in through the gate alone, under one policy. */
  ghost predicate Gated(calls: seq<(Policy, Call)>, policy: Policy) {
    forall i | 0 <= i < |calls| :: calls[i].0 == policy && !calls[i].1.Granting?
  }

  /** The cap on concurrent queries is never exceeded. */
  lemma {:induction false} CapHolds(run: seq<State>, calls: seq<(Policy, Call)>, policy: Policy, i: nat)
    requires Run(run, calls) && Gated(calls, policy) && policy.admitMaxConcurrent > 0 && i < |run|
    ensures run[i].active <= policy.admitMaxConcurrent
    decreases i
  {
    if i > 0 {
      CapHolds(run, calls, policy, i - 1);
      assert StepAt(run, calls, i - 1);
    }
  }

  /** No query is admitted with a grant below the floor: a pool that the call adds has
      at least that much, and rejecting adds none. */
  lemma FloorHolds(run: seq<State>, calls: seq<(Policy, Call)>, policy: Policy, i: nat)
    requires Run(run, calls) && Gated(calls, policy) && i < |calls| && |run[i + 1].pools| > |run[i].pools|
    ensures |run[i + 1].pools| == |run[i].pools| + 1
    ensures run[i + 1].pools[|run[i].pools|].grant >= policy.admitMinGrant
  {
    assert StepAt(run, calls, i);
    if calls[i].1.Reclaiming? {
      LiveFacts(run[i].pools);
      LiveShort(run[i].pools);
    }
  }

  lemma {:induction false} LiveShort(pools: seq<PoolState>)
    ensures |Live(pools)| <= |pools|
  {
    if |pools| > 0 { LiveShort(pools[..|pools| - 1]); }
  }

  // ------------------------------------------------------------------ repeated reclaim

  function Reclaims(s: State, k: nat, times: nat): State {
    if times == 0 then s else Reclaim(Reclaims(s, k, times - 1), k)
  }

  lemma {:induction false} LiveOfLive(pools: seq<PoolState>)
    requires LiveCount(pools) == |pools|
    ensures Live(pools) == pools
  {
    if |pools| > 0 {
      var front := pools[..|pools| - 1];
      LiveCountShort(front);
      LiveOfLive(front);
      assert pools == front + [pools[|pools| - 1]];
    }
  }

  lemma {:induction false} LiveCountShort(pools: seq<PoolState>)
    ensures LiveCount(pools) <= |pools|
  {
    if |pools| > 0 { LiveCountShort(pools[..|pools| - 1]); }
  }

  /** Every call takes the headroom of `k` pools, until none has any. */
  lemma {:induction false} ReclaimsCandidates(s: State, k: nat, times: nat)
    requires k > 0 && times > 0
    ensures LiveCount(Reclaims(s, k, times).pools) == |Reclaims(s, k, times).pools|
    ensures Candidates(Reclaims(s, k, times).pools) == Minus(Candidates(Live(s.pools)), times * k)
    decreases times
  {
    hide Live, Shrunk, Candidates, LiveCount;
    if times == 1 {
      LiveFacts(s.pools);
      ShrunkFacts(Live(s.pools), k);
      assert Reclaims(s, k, 1) == Reclaim(Reclaims(s, k, 0), k);
    } else {
      hide Reclaims;
      ReclaimsCandidates(s, k, times - 1);
      ReclaimsNext(s, k, times);
      var s' := Reclaims(s, k, times - 1);
      LiveOfLive(s'.pools);
      ShrunkFacts(s'.pools, k);
      assert times * k == (times - 1) * k + k;
    }
  }

  lemma ReclaimsNext(s: State, k: nat, times: nat)
    requires times > 0
    ensures Reclaims(s, k, times) == Reclaim(Reclaims(s, k, times - 1), k)
  {
  }

  lemma {:induction false} NoCandidates(pools: seq<PoolState>)
    ensures Candidates(pools) == 0 <==> forall i | 0 <= i < |pools| :: Headroom(pools[i]) == 0
    ensures Candidates(pools) <= |pools|
  {
    if |pools| > 0 {
      NoCandidates(pools[..|pools| - 1]);
      assert forall i | 0 <= i < |pools| - 1 :: pools[..|pools| - 1][i] == pools[i];
    }
  }

  /** `times` calls drain every live pool exactly when they may touch as many pools as
      have headroom; one call for every `k` live pools, rounded up, is enough. */
  lemma ReclaimDrains(s: State, k: nat, times: nat)
    requires k > 0 && times > 0
    ensures (forall i | 0 <= i < |Reclaims(s, k, times).pools| :: Headroom(Reclaims(s, k, times).pools[i]) == 0)
       <==> times * k >= Candidates(Live(s.pools))
    ensures times >= (LiveCount(s.pools) + k - 1) / k ==> times * k >= Candidates(Live(s.pools))
  {
    hide Reclaims, Live, Candidates, LiveCount, Headroom;
    ReclaimsCandidates(s, k, times);
    NoCandidates(Reclaims(s, k, times).pools);
    NoCandidates(Live(s.pools));
    LiveFacts(s.pools);
    if times >= (LiveCount(s.pools) + k - 1) / k {
      CeilEnough(LiveCount(s.pools), k, times);
    }
  }

  lemma CeilEnough(p: nat, k: nat, times: nat)
    requires k > 0 && times >= (p + k - 1) / k
    ensures times * k >= p
  {
    var q := (p + k - 1) / k;
    assert p + k - 1 == q * k + (p + k - 1) % k;
    assert times * k == q * k + (times - q) * k;
    assert (times - q) * k >= 0;
  }

  // ------------------------------------------------------------------ the objects

  class QueryMemoryPool {
    const queryId: nat
    var grantBytes: nat
    var reservedBytes: nat
    var peakBytes: nat
    /** Some handle other than the governor's weak one remains. */
    var alive: bool

    constructor (id: nat, grant: nat)
      ensures View() == PoolState(id, grant, 0, 0, true)
    {
      queryId, grantBytes, reservedBytes, peakBytes, alive := id, grant, 0, 0, true;
    }

    ghost function View(): PoolState
      reads this
    {
      PoolState(queryId, grantBytes, reservedBytes, peakBytes, alive)
    }

    function Remaining(): (r: nat)
      reads this
      ensures r == Headroom(View())
    {
      if grantBytes >= reservedBytes then grantBytes - reservedBytes else 0
    }

    method TryReserve(bytes: nat) returns (granted: bool)
      modifies this
      ensures View() == Reserve(old(View()), bytes)
      ensures granted <==> bytes <= Headroom(old(View()))
      ensures granted && bytes > 0 ==> reservedBytes <= grantBytes
      ensures reservedBytes == old(reservedBytes) + if granted then bytes else 0
      ensures peakBytes >= old(peakBytes) && (granted ==> peakBytes >= reservedBytes)
    {
      granted := bytes <= Remaining();
      if granted {
        reservedBytes := reservedBytes + bytes;
        if peakBytes < reservedBytes {
          peakBytes := reservedBytes;
        }
      }
    }

    method GiveBack(bytes: nat)
      modifies this
      ensures View() == Release(old(View()), bytes)
      ensures reservedBytes <= old(reservedBytes) && old(reservedBytes) - reservedBytes <= bytes
      ensures old(reservedBytes) - reservedBytes < bytes ==> reservedBytes == 0
    {
      reservedBytes := if reservedBytes >= bytes then reservedBytes - bytes else 0;
    }

    method SetGrant(grant: nat)
      modifies this
      ensures View() == Regrant(old(View()), grant)
    {
      grantBytes := grant;
    }

    method ShrinkToReserved() returns (freed: nat)
      modifies this
      ensures View() == Shrink(old(View()))
      ensures freed == Headroom(old(View())) && Remaining() == 0
    {
      var previous := grantBytes;
      grantBytes := reservedBytes;
      freed := if previous >= reservedBytes then previous - reservedBytes else 0;
    }
  }

  ghost function Views(pools: seq<QueryMemoryPool>): (r: seq<PoolState>)
    reads pools
    ensures |r| == |pools| && forall i | 0 <= i < |pools| :: r[i] == pools[i].View()
  {
    seq(|pools|, i requires 0 <= i < |pools| reads pools => pools[i].View())
  }

  datatype Outcome = Outcome(reclaimedQueries: nat, headroomFreed: nat)

  datatype Admission = Admitted(pool: QueryMemoryPool) | Rejected(reason: Rejection)

  class MemoryGovernor {
    var activeQueries: nat
    var nextQueryId: nat
    var rejectedQueries: nat
    var livePools: seq<QueryMemoryPool>

    constructor ()
      ensures Valid() && View() == FRESH && livePools == []
    {
      activeQueries, nextQueryId, rejectedQueries, livePools := 0, 1, 0, [];
    }

    ghost function View(): State
      reads this, livePools
    {
      State(activeQueries, nextQueryId, rejectedQueries, Views(livePools))
    }

    ghost predicate Valid()
      reads this, livePools
    {
      Sound(View()) && Distinct(livePools)
    }

    /** `threshold` is what the memory manager offers to queries at the moment. */
    method GrantNewQuery(threshold: nat) returns (pool: QueryMemoryPool)
      requires Valid()
      modifies this
      ensures Valid() && View() == Grant(old(View()), threshold)
      ensures fresh(pool) && livePools == old(livePools) + [pool]
    {
      hide Sound;
      ghost var before := View();
      SoundGrant(before, threshold);
      var id := nextQueryId;
      nextQueryId := nextQueryId + 1;
      activeQueries := activeQueries + 1;
      pool := new QueryMemoryPool(id, threshold / activeQueries);
      livePools := livePools + [pool];
      assert View().pools == Grant(before, threshold).pools;
    }

    method Gate(policy: Policy, pressure: real, threshold: nat) returns (r: Admission)
      requires Valid()
      modifies this
      ensures Valid() && View() == Admit(old(View()), policy, pressure, threshold)
      ensures r.Rejected? <==> Verdict(old(View()), policy, pressure, threshold) != None
      ensures r.Rejected? ==>
        Verdict(old(View()), policy, pressure, threshold) == Some(r.reason) && livePools == old(livePools)
      ensures r.Admitted? ==> fresh(r.pool) && livePools == old(livePools) + [r.pool]
    {
      hide Grant, LiveCount;
      ghost var before := View();
      var active := activeQueries;
      var prospective := threshold / (active + 1);
      var rejection := None;
      if policy.admitMaxPressure.Some? && pressure >= policy.admitMaxPressure.value {
        rejection := Some(MemoryPressure(pressure, policy.admitMaxPressure.value));
      } else if policy.admitMaxConcurrent > 0 && active >= policy.admitMaxConcurrent {
        rejection := Some(TooManyConcurrentQueries(active, policy.admitMaxConcurrent));
      } else if policy.admitMinGrant > 0 && prospective < policy.admitMinGrant {
        rejection := Some(InsufficientHeadroom(prospective, policy.admitMinGrant));
      }
      if rejection.Some? {
        rejectedQueries := rejectedQueries + 1;
        assert View().pools == before.pools;
        r := Rejected(rejection.value);
      } else {
        var pool := GrantNewQuery(threshold);
        r := Admitted(pool);
      }
    }

    /** The last handle of a query's pool goes away. */
    method DropPool(ghost i: nat, pool: QueryMemoryPool)
      requires Valid() && i < |livePools| && livePools[i] == pool && pool.alive
      modifies this, pool
      ensures Valid() && old(View()).active > 0 && View() == Drop(old(View()), i) && livePools == old(livePools)
    {
      hide Sound;
      ghost var before := View();
      SoundUpdate(before, i, before.pools[i].(alive := false));
      pool.alive := false;
      activeQueries := activeQueries - 1;
      assert View().pools == before.pools[i := before.pools[i].(alive := false)];
    }

    method ReclaimPools(maxQueries: nat) returns (outcome: Outcome)
      requires Valid()
      modifies this, livePools
      ensures Valid() && View() == Reclaim(old(View()), maxQueries)
      ensures forall p <- livePools :: p in old(livePools)
      ensures maxQueries == 0 ==> outcome == Outcome(0, 0)
      ensures maxQueries > 0 ==>
                && HeadroomSum(View().pools) + outcome.headroomFreed == HeadroomSum(Live(old(View().pools)))
                && outcome.reclaimedQueries == Candidates(Live(old(View().pools))) - Candidates(View().pools)
    {
      hide Shrunk, HeadroomSum, Candidates, Live, Sound, Distinct, Views;
      if maxQueries == 0 { return Outcome(0, 0); }
      ghost var before := View();
      SoundReclaim(before, maxQueries);
      ReclaimIs(before, maxQueries);
      hide Reclaim;
      assert forall p <- livePools :: (p as object) != (this as object);
      var live, taken, freed := Taken(livePools, maxQueries);
      livePools := live;
      assert View() == before.(pools := Views(live));
      outcome := Outcome(taken, freed);
    }
  }

  lemma ReclaimIs(s: State, k: nat)
    requires k > 0
    ensures Reclaim(s, k) == s.(pools := Shrunk(Live(s.pools), k))
  {
  }

  method Taken(pools: seq<QueryMemoryPool>, k: nat) returns (live: seq<QueryMemoryPool>, taken: nat, freed: nat)
    requires Distinct(pools)
    modifies pools
    ensures Distinct(live) && forall p <- live :: p in pools
    ensures Views(live) == Shrunk(Live(old(Views(pools))), k)
    ensures HeadroomSum(Views(live)) + freed == HeadroomSum(Live(old(Views(pools))))
    ensures Candidates(Views(live)) + taken == Candidates(Live(old(Views(pools))))
  {
    hide Shrunk, HeadroomSum, Candidates, Live, Distinct, Views;
    live := Upgraded(pools);
    forall i | 0 <= i < |live| ensures live[i] in pools { assert live[i] in live; }
    taken, freed := ShrinkYoungest(live, k);
  }

  /** The pools that are still alive; dead handles leave the registry. */
  method Upgraded(pools: seq<QueryMemoryPool>) returns (live: seq<QueryMemoryPool>)
    requires Distinct(pools)
    ensures Views(live) == Live(Views(pools)) && Distinct(live)
    ensures forall p <- live :: p in pools
  {
    hide Live;
    live := [];
    LiveNone();
    for i := 0 to |pools|
      invariant Views(live) == Live(Views(pools[..i])) && Distinct(live)
      invariant forall p <- live :: p in pools[..i]
    {
      assert pools[i] !in pools[..i];
      LivePush(Views(pools[..i]), pools[i].View());
      assert Views(pools[..i + 1]) == Views(pools[..i]) + [pools[i].View()];
      ghost var live0 := live;
      if pools[i].alive {
        live := live + [pools[i]];
        assert Views(live) == Views(live0) + [pools[i].View()];
      }
    }
    assert pools[..|pools|] == pools;
  }

  lemma LiveNone()
    ensures Live([]) == []
  {
  }

  lemma LivePush(pools: seq<PoolState>, p: PoolState)
    ensures Live(pools + [p]) == if p.alive then Live(pools) + [p] else Live(pools)
  {
    assert (pools + [p])[..|pools|] == pools;
  }

  /** The registry is in ascending order of ids: the youngest pools are last. */
  method ShrinkYoungest(live: seq<QueryMemoryPool>, k: nat) returns (taken: nat, freed: nat)
    requires Distinct(live)
    modifies live
    ensures Views(live) == Shrunk(old(Views(live)), k)
    ensures HeadroomSum(Views(live)) + freed == HeadroomSum(old(Views(live)))
    ensures Candidates(Views(live)) + taken == Candidates(old(Views(live)))
  {
    hide Shrinking, Views;
    ghost var v0 := Views(live);
    taken, freed := 0, 0;
    var i := |live|;
    ShrinkStart(v0, k);
    while i > 0 && taken < k
      invariant 0 <= i <= |live| && taken <= k && Shrinking(v0, Views(live), i, k, taken, freed)
    {
      i := i - 1;
      ShrinkStep(v0, Views(live), i, k, taken, freed);
      if live[i].Remaining() > 0 {
        var more := ShrinkAt(live, i);
        freed, taken := freed + more, taken + 1;
      }
    }
    ShrinkDone(v0, Views(live), i, k, taken, freed);
  }

  method ShrinkAt(live: seq<QueryMemoryPool>, i: nat) returns (freed: nat)
    requires Distinct(live) && i < |live|
    modifies live[i]
    ensures Views(live) == var v := old(Views(live)); v[i := Shrink(v[i])]
    ensures freed == Headroom(old(Views(live))[i])
  {
    ghost var v := Views(live);
    freed := live[i].ShrinkToReserved();
    assert Views(live) == v[i := Shrink(v[i])];
  }

  /** The pools from `i` on have been seen to, and `taken` of them shrunk. */
  ghost predicate Shrinking(v0: seq<PoolState>, v: seq<PoolState>, i: nat, k: nat, taken: nat, freed: nat) {
    && |v| == |v0| && i <= |v0| && taken <= k && v[..i] == v0[..i]
    && Shrunk(v0, k) == Shrunk(v0[..i], k - taken) + v[i..]
    && HeadroomSum(v) + freed == HeadroomSum(v0) && Candidates(v) + taken == Candidates(v0)
  }

  lemma ShrinkStart(v0: seq<PoolState>, k: nat)
    ensures Shrinking(v0, v0, |v0|, k, 0, 0)
  {
    hide Shrunk;
    assert v0[..|v0|] == v0 && v0[|v0|..] == [];
    assert Shrunk(v0, k) + [] == Shrunk(v0, k);
  }

  lemma ShrinkStep(v0: seq<PoolState>, v: seq<PoolState>, i: nat, k: nat, taken: nat, freed: nat)
    requires Shrinking(v0, v, i + 1, k, taken, freed) && taken < k
    ensures if Headroom(v[i]) > 0 then Shrinking(v0, v[i := Shrink(v[i])], i, k, taken + 1, freed + Headroom(v[i]))
            else Shrinking(v0, v, i, k, taken, freed)
  {
    hide Shrunk, HeadroomSum, Candidates, Headroom;
    assert v[i] == v[..i + 1][i] == v0[i];
    assert v[..i] == v[..i + 1][..i] && v0[..i] == v0[..i + 1][..i];
    ShrunkTail(v0, i, k - taken, v[i + 1..], Shrunk(v0, k));
    var p := Shrink(v[i]);
    if Headroom(v[i]) > 0 {
      ZeroHeadroom(p);
      HeadroomUpdate(v, i, p);
      assert v[i := p][i..] == [p] + v[i + 1..] && v[i := p][..i] == v[..i];
    } else {
      assert v[i..] == [v[i]] + v[i + 1..];
    }
  }

  lemma ZeroHeadroom(p: PoolState)
    requires p.grant == p.reserved
    ensures Headroom(p) == 0
  {
  }

  lemma ShrinkDone(v0: seq<PoolState>, v: seq<PoolState>, i: nat, k: nat, taken: nat, freed: nat)
    requires Shrinking(v0, v, i, k, taken, freed) && (i == 0 || taken == k)
    ensures v == Shrunk(v0, k) && HeadroomSum(v) + freed == HeadroomSum(v0) && Candidates(v) + taken == Candidates(v0)
  {
    ShrunkNone(v0[..i], k - taken);
    assert v == v[..i] + v[i..];
  }

  lemma ShrunkTail(v: seq<PoolState>, i: nat, k: nat, tail: seq<PoolState>, all: seq<PoolState>)
    requires i < |v| && k > 0 && all == Shrunk(v[..i + 1], k) + tail
    ensures all == if Headroom(v[i]) > 0 then Shrunk(v[..i], k - 1) + ([Shrink(v[i])] + tail)
      else Shrunk(v[..i], k) + ([v[i]] + tail)
  {
    ShrunkLast(v[..i + 1], k);
    assert v[..i + 1][..i] == v[..i];
  }

  lemma ShrunkLast(pools: seq<PoolState>, k: nat)
    requires |pools| > 0 && k > 0
    ensures var front, last := pools[..|pools| - 1], pools[|pools| - 1];
      Shrunk(pools, k) == if Headroom(last) > 0 then Shrunk(front, k - 1) + [Shrink(last)]
        else Shrunk(front, k) + [last]
  {
  }

  lemma ShrunkNone(pools: seq<PoolState>, k: nat)
    requires |pools| == 0 || k == 0
    ensures Shrunk(pools, k) == pools
  {
  }

  lemma {:induction false} HeadroomUpdate(pools: seq<PoolState>, i: nat, p: PoolState)
    requires i < |pools| && Headroom(pools[i]) > 0 && Headroom(p) == 0
    ensures HeadroomSum(pools[i := p]) == HeadroomSum(pools) - Headroom(pools[i])
    ensures Candidates(pools[i := p]) == Candidates(pools) - 1
  {
    var n := |pools| - 1;
    if i == n {
      assert pools[i := p][..n] == pools[..n];
    } else {
      HeadroomUpdate(pools[..n], i, p);
      assert pools[i := p][..n] == pools[..n][i := p];
    }
  }
}
