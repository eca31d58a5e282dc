/** The two-tier concurrency rule of the problem resolver, as a planner that
    answers which worker pools (`ThreadPool.new(max_threads: w)`) one
    resolution pass creates.

    The outer tier runs one worker per parallel instance group that has
    problems; inside each such group the inner tier runs one worker per
    problem. A pool is created only when its width exceeds 1: below that the
    work is done by direct calls. Serial groups never get a pool and are not
    counted in the outer width; with parallel resolution switched off no pool
    is created at all. */
module PoolPlanning {
  import opened Results

  /** An instance group as the planner sees it: its update policy and how
      many of the submitted problems belong to it. */
  datatype GroupLoad = GroupLoad(serial: bool, maxInFlight: nat, problems: nat)

  /** The pools of one pass: the outer pool, if any, and one inner pool per
      parallel group whose inner width exceeds 1, in group order. */
  datatype PoolPlan = PoolPlan(outer: Option<nat>, inner: seq<nat>)

  function Min(a: nat, b: nat): nat
  {
    if a <= b then a else b
  }

  /** The groups that take part in the pooled tiers: not serial, with problems. */
  function ParallelGroups(loads: seq<GroupLoad>): (r: seq<GroupLoad>)
    ensures |r| <= |loads|
    ensures forall g :: g in r <==> g in loads && !g.serial && g.problems > 0
  {
    if loads == [] then []
    else
      (if !loads[0].serial && loads[0].problems > 0 then [loads[0]] else [])
      + ParallelGroups(loads[1..])
  }

  /** Width of the outer tier: min(max_threads, number of parallel groups with problems). */
  function OuterWidth(maxThreads: nat, loads: seq<GroupLoad>): nat
  {
    Min(maxThreads, |ParallelGroups(loads)|)
  }

  /** Width of a group's inner tier: min(max_threads, max_in_flight, problems in the group). */
  function InnerWidth(maxThreads: nat, g: GroupLoad): nat
  {
    Min(Min(maxThreads, g.maxInFlight), g.problems)
  }

  /** How many of `groups` have inner width `w`. */
  function CountWide(maxThreads: nat, groups: seq<GroupLoad>, w: nat): nat
  {
    if groups == [] then 0
    else (if InnerWidth(maxThreads, groups[0]) == w then 1 else 0) + CountWide(maxThreads, groups[1..], w)
  }

  /** The inner pools created for `groups`, in order: one per group whose
      inner width exceeds 1. */
  function InnerPools(maxThreads: nat, groups: seq<GroupLoad>): (r: seq<nat>)
    ensures |r| <= |groups|
    ensures forall w :: w in r ==> 1 < w <= maxThreads
    ensures forall w :: w in r ==> exists g :: g in groups && InnerWidth(maxThreads, g) == w
    ensures forall g :: g in groups && InnerWidth(maxThreads, g) > 1 ==> InnerWidth(maxThreads, g) in r
    ensures forall w :: w > 1 ==> multiset(r)[w] == CountWide(maxThreads, groups, w)
  {
    if groups == [] then []
    else
      var w := InnerWidth(maxThreads, groups[0]);
      (if w > 1 then [w] else []) + InnerPools(maxThreads, groups[1..])
  }

  /** The pools one call of `apply_resolutions` creates. */
  function PlanPools(parallelEnabled: bool, maxThreads: nat, loads: seq<GroupLoad>): (plan: PoolPlan)
    ensures !parallelEnabled ==> Pools(plan) == []
    ensures plan.outer.Some? <==> parallelEnabled && OuterWidth(maxThreads, loads) > 1
    ensures plan.outer.Some? ==> plan.outer.value == OuterWidth(maxThreads, loads)
    ensures |plan.inner| <= |ParallelGroups(loads)|
    ensures forall w :: w in Pools(plan) ==> 1 < w <= maxThreads
    ensures parallelEnabled ==>
              forall g :: g in loads && !g.serial && g.problems > 0 && InnerWidth(maxThreads, g) > 1 ==>
                InnerWidth(maxThreads, g) in plan.inner
    ensures parallelEnabled ==>
              forall w :: w > 1 ==> multiset(plan.inner)[w] == CountWide(maxThreads, ParallelGroups(loads), w)
  {
    if !parallelEnabled then PoolPlan(None, [])
    else
      var w := OuterWidth(maxThreads, loads);
      PoolPlan(if w > 1 then Some(w) else None, InnerPools(maxThreads, ParallelGroups(loads)))
  }

  /** The widths passed to `ThreadPool.new`, outer pool first. */
  function Pools(plan: PoolPlan): (r: seq<nat>)
    ensures |r| == (if plan.outer.Some? then 1 else 0) + |plan.inner|
    ensures plan.outer.Some? ==> r[0] == plan.outer.value && r[1..] == plan.inner
    ensures plan.outer.None? ==> r == plan.inner
  {
    (if plan.outer.Some? then [plan.outer.value] else []) + plan.inner
  }

  /** `n` copies of `x`. */
  function Repeat<T>(x: T, n: nat): (r: seq<T>)
    ensures |r| == n && forall y :: y in r ==> y == x
  {
    if n == 0 then [] else [x] + Repeat(x, n - 1)
  }

  /** With a thread budget of one, no pool of any width is created. */
  lemma NoPoolsWithOneThread(parallelEnabled: bool, maxThreads: nat, loads: seq<GroupLoad>)
    requires maxThreads <= 1
    ensures Pools(PlanPools(parallelEnabled, maxThreads, loads)) == []
  {
    NoInnerPoolsWithOneThread(maxThreads, ParallelGroups(loads));
  }

  lemma {:induction false} NoInnerPoolsWithOneThread(maxThreads: nat, groups: seq<GroupLoad>)
    requires maxThreads <= 1
    ensures InnerPools(maxThreads, groups) == []
  {
    if groups != [] {
      NoInnerPoolsWithOneThread(maxThreads, groups[1..]);
    }
  }

  /** One group with (at most) one problem is resolved by a direct call. */
  lemma NoPoolsForSingleProblem(parallelEnabled: bool, maxThreads: nat, g: GroupLoad)
    requires g.problems <= 1
    ensures Pools(PlanPools(parallelEnabled, maxThreads, [g])) == []
  {
    assert [g][1..] == [];
  }

  /** A max_in_flight of one everywhere leaves only the outer pool. */
  lemma {:induction false} NoInnerPoolsWhenMaxInFlightIsOne(maxThreads: nat, groups: seq<GroupLoad>)
    requires forall g :: g in groups ==> g.maxInFlight <= 1
    ensures InnerPools(maxThreads, groups) == []
  {
    if groups != [] {
      assert groups[0] in groups;
      NoInnerPoolsWhenMaxInFlightIsOne(maxThreads, groups[1..]);
    }
  }

  lemma {:induction false} ParallelGroupsIdempotent(loads: seq<GroupLoad>)
    ensures ParallelGroups(ParallelGroups(loads)) == ParallelGroups(loads)
  {
    if loads != [] {
      ParallelGroupsIdempotent(loads[1..]);
      var head := if !loads[0].serial && loads[0].problems > 0 then [loads[0]] else [];
      ParallelGroupsAppend(head, ParallelGroups(loads[1..]));
    }
  }

  lemma {:induction false} ParallelGroupsAppend(a: seq<GroupLoad>, b: seq<GroupLoad>)
    ensures ParallelGroups(a + b) == ParallelGroups(a) + ParallelGroups(b)
  {
    if a == [] {
      assert a + b == b;
    } else {
      assert (a + b)[1..] == a[1..] + b;
      ParallelGroupsAppend(a[1..], b);
    }
  }

  /** Serial groups and groups without problems play no part in the plan:
      planning over the parallel groups alone gives the same pools. */
  lemma SerialGroupsDoNotMatter(parallelEnabled: bool, maxThreads: nat, loads: seq<GroupLoad>)
    ensures PlanPools(parallelEnabled, maxThreads, loads)
         == PlanPools(parallelEnabled, maxThreads, ParallelGroups(loads))
  {
    ParallelGroupsIdempotent(loads);
  }

  lemma {:induction false} InnerPoolsOfRepeat(maxThreads: nat, g: GroupLoad, n: nat)
    ensures InnerPools(maxThreads, Repeat(g, n))
         == if InnerWidth(maxThreads, g) > 1 then Repeat(InnerWidth(maxThreads, g), n) else []
  {
    if n > 0 {
      assert Repeat(g, n)[0] == g && Repeat(g, n)[1..] == Repeat(g, n - 1);
      InnerPoolsOfRepeat(maxThreads, g, n - 1);
    }
  }

  lemma {:induction false} ParallelGroupsOfRepeat(g: GroupLoad, n: nat)
    requires !g.serial && g.problems > 0
    ensures ParallelGroups(Repeat(g, n)) == Repeat(g, n)
  {
    if n > 0 {
      assert Repeat(g, n)[1..] == Repeat(g, n - 1);
      ParallelGroupsOfRepeat(g, n - 1);
    }
  }

  /** `n` parallel groups, each with the same max_in_flight and `p` problems:
      one outer pool of width min(max_threads, n) when that exceeds 1, then
      `n` inner pools of width min(max_threads, max_in_flight, p) when that
      exceeds 1. */
  lemma UniformParallelGroups(maxThreads: nat, maxInFlight: nat, p: nat, n: nat)
    requires p > 0
    ensures (var inner := InnerWidth(maxThreads, GroupLoad(false, maxInFlight, p));
             Pools(PlanPools(true, maxThreads, Repeat(GroupLoad(false, maxInFlight, p), n)))
             == (if Min(maxThreads, n) > 1 then [Min(maxThreads, n)] else [])
              + (if inner > 1 then Repeat(inner, n) else []))
  {
    var g := GroupLoad(false, maxInFlight, p);
    ParallelGroupsOfRepeat(g, n);
    InnerPoolsOfRepeat(maxThreads, g, n);
  }

  lemma RepeatFour<T>(x: T)
    ensures Repeat(x, 4) == [x, x, x, x]
  {
    assert Repeat(x, 1) == [x];
    assert Repeat(x, 2) == [x, x];
    assert Repeat(x, 3) == [x, x, x];
  }

  /** Four identical parallel groups whose outer and inner widths both exceed 1. */
  lemma FourUniformGroups(maxThreads: nat, maxInFlight: nat, p: nat, outer: nat, inner: nat)
    requires p > 0
    requires outer == Min(maxThreads, 4) && inner == InnerWidth(maxThreads, GroupLoad(false, maxInFlight, p))
    requires outer > 1 && inner > 1
    ensures Pools(PlanPools(true, maxThreads, Repeat(GroupLoad(false, maxInFlight, p), 4))) == [outer, inner, inner, inner, inner]
  {
    var g := GroupLoad(false, maxInFlight, p);
    ParallelGroupsOfRepeat(g, 4);
    InnerPoolsOfRepeat(maxThreads, g, 4);
    RepeatFour(inner);
    assert PlanPools(true, maxThreads, Repeat(g, 4)) == PoolPlan(Some(outer), [inner, inner, inner, inner]);
  }

  /** The resolver tests' fixture: four parallel groups of three problems,
      max_threads 10, max_in_flight 5. One outer pool of width 4, four inner
      pools of width 3. */
  lemma FourGroupsOfThree()
    ensures Pools(PlanPools(true, 10, Repeat(GroupLoad(false, 5, 3), 4))) == [4, 3, 3, 3, 3]
  {
    FourUniformGroups(10, 5, 3, 4, 3);
  }

  /** The same fixture with max_in_flight 1: the outer pool of width 4 only. */
  lemma FourGroupsMaxInFlightOne()
    ensures Pools(PlanPools(true, 10, Repeat(GroupLoad(false, 1, 3), 4))) == [4]
  {
    UniformParallelGroups(10, 1, 3, 4);
  }

  /** The same fixture with max_in_flight 2: inner pools of width 2. */
  lemma FourGroupsMaxInFlightTwo()
    ensures Pools(PlanPools(true, 10, Repeat(GroupLoad(false, 2, 3), 4))) == [4, 2, 2, 2, 2]
  {
    FourUniformGroups(10, 2, 3, 4, 2);
  }

  /** The same fixture with max_threads 2: five pools, all of width 2. */
  lemma FourGroupsMaxThreadsTwo()
    ensures Pools(PlanPools(true, 2, Repeat(GroupLoad(false, 5, 3), 4))) == [2, 2, 2, 2, 2]
  {
    FourUniformGroups(2, 5, 3, 2, 2);
  }

  lemma MixedParallelGroups(s: GroupLoad, p: GroupLoad)
    requires s.serial && !p.serial && p.problems > 0
    ensures ParallelGroups([s, p, p, s]) == [p, p]
  {
    assert [s][1..] == [] && [p][1..] == [];
    assert ParallelGroups([s]) == [] && ParallelGroups([p]) == [p];
    ParallelGroupsAppend([p], [s]);
    assert [p] + [s] == [p, s];
    ParallelGroupsAppend([p], [p, s]);
    assert [p] + [p, s] == [p, p, s];
    ParallelGroupsAppend([s], [p, p, s]);
    assert [s] + [p, p, s] == [s, p, p, s];
  }

  lemma InnerPoolsOfTwo(maxThreads: nat, p: GroupLoad)
    requires InnerWidth(maxThreads, p) > 1
    ensures InnerPools(maxThreads, [p, p]) == [InnerWidth(maxThreads, p), InnerWidth(maxThreads, p)]
  {
    assert [p, p][1..] == [p] && [p][1..] == [];
    assert InnerPools(maxThreads, [p]) == [InnerWidth(maxThreads, p)];
  }

  /** A serial group, two parallel groups, a serial group: the outer pool
      counts the two parallel groups, each of which gets its inner pool. */
  lemma SerialParallelMix(maxThreads: nat, s: GroupLoad, p: GroupLoad, outer: nat, inner: nat)
    requires s.serial && !p.serial && p.problems > 0
    requires outer == Min(maxThreads, 2) && inner == InnerWidth(maxThreads, p)
    requires outer > 1 && inner > 1
    ensures Pools(PlanPools(true, maxThreads, [s, p, p, s])) == [outer, inner, inner]
  {
    MixedParallelGroups(s, p);
    InnerPoolsOfTwo(maxThreads, p);
  }

  /** Two serial and two parallel groups of three problems each: one outer
      pool of width 2 and two inner pools of width 3. */
  lemma SerialAndParallelGroups()
    ensures Pools(PlanPools(true, 10, [GroupLoad(true, 5, 3), GroupLoad(false, 5, 3),
                                       GroupLoad(false, 5, 3), GroupLoad(true, 5, 3)])) == [2, 3, 3]
  {
    SerialParallelMix(10, GroupLoad(true, 5, 3), GroupLoad(false, 5, 3), 2, 3);
  }
}
