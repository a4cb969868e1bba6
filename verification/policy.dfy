/**
 * Group-count policies of the planner: the feasibility cap
 * (`grouping/feasibility.py`), the policy derived from the AC count
 * (`grouping/policy.py`), the effective policy the clustering agent works
 * with (`derive_effective_policy` in `grouping/cluster_support.py`) and the
 * command-line auto-tuning (`_auto_tune_grouping_policy` in `run.py`).
 * All of them clamp group-count targets to `max(1, N // min_group_size)`.
 */
module Policy {
  import opened PyJson

  function Max(a: int, b: int): int {
    if a >= b then a else b
  }

  function Min(a: int, b: int): int {
    if a <= b then a else b
  }

  /** Python's `a // b` for a positive divisor. Dafny's `/` is Euclidean, which rounds down
      as Python does whenever the divisor is positive. */
  function FloorDiv(a: int, b: int): (q: int)
    requires b > 0
    ensures q * b <= a < q * b + b
  {
    a / b
  }

  /** `max(1, n // mgs)`: the most groups of at least `mgs` ACs that `n` ACs allow, and
      never less than one. */
  function FeasibleGroups(n: int, mgs: int): (f: int)
    requires mgs >= 1
    ensures f >= 1
    ensures n >= mgs ==> f * mgs <= n < f * mgs + mgs
    ensures n < mgs ==> f == 1
  {
    Max(1, FloorDiv(n, mgs))
  }

  /** `m` is the minimum of `a` and `b`, stated by order alone. */
  predicate IsMin(m: int, a: int, b: int) {
    m <= a && m <= b && (m == a || m == b)
  }

  lemma MinIsMin(a: int, b: int)
    ensures IsMin(Min(a, b), a, b)
  {
  }

  // ---------------------------------------------------------------------------
  // Relaxation labels
  // ---------------------------------------------------------------------------

  const TARGET_MIN_CAPPED: string := "tier3_target_min_capped_by_feasibility"
  const TARGET_MAX_CAPPED: string := "tier3_target_max_capped_by_feasibility"
  const TARGET_RANGE_COLLAPSED: string := "tier3_target_range_collapsed"
  const TARGET_RANGE_ADJUSTED: string := "tier3_target_range_adjusted"
  const MAX_GROUPS_CAPPED: string := "max_groups_capped_by_feasibility"

  /** `[tag] if cond else []`. */
  function When(cond: bool, tag: string): seq<string> {
    if cond then [tag] else []
  }

  // ---------------------------------------------------------------------------
  // compute_effective_grouping
  // ---------------------------------------------------------------------------

  datatype EffectiveGrouping = EffectiveGrouping(
    targetMin: int,
    targetMax: int,
    maxGroups: int,
    minGroupSize: int,
    maxFeasibleGroups: int,
    relaxations: seq<string>)

  /** `compute_effective_grouping`: the AC count is clamped at zero and the minimum group
      size at one, every requested bound is capped by feasibility, the range is kept in
      order by raising its upper end, and each cap is recorded. */
  function ComputeEffectiveGrouping(nAcs: int, reqMin: int, reqMax: int, reqMaxGroups: int, minGroupSize: int): (e: EffectiveGrouping)
    ensures e.minGroupSize == Max(1, minGroupSize) && e.minGroupSize >= 1
    ensures e.maxFeasibleGroups == FeasibleGroups(Max(0, nAcs), e.minGroupSize)
    ensures IsMin(e.targetMin, reqMin, e.maxFeasibleGroups)
    ensures IsMin(e.maxGroups, reqMaxGroups, e.maxFeasibleGroups)
    ensures e.targetMin <= e.targetMax <= e.maxFeasibleGroups
    ensures e.targetMax == Max(e.targetMin, Min(reqMax, e.maxFeasibleGroups))
    ensures TARGET_MIN_CAPPED in e.relaxations <==> e.targetMin != reqMin
    ensures TARGET_MAX_CAPPED in e.relaxations <==> e.targetMax != reqMax
    ensures MAX_GROUPS_CAPPED in e.relaxations <==> e.maxGroups != reqMaxGroups
    ensures forall x :: x in e.relaxations ==> x in [TARGET_MIN_CAPPED, TARGET_MAX_CAPPED, MAX_GROUPS_CAPPED]
  {
    var n := Max(0, nAcs);
    var mgs := Max(1, minGroupSize);
    var f := FeasibleGroups(n, mgs);
    var tmin := Min(reqMin, f);
    var tmax0 := Min(reqMax, f);
    var tmax := if tmax0 < tmin then tmin else tmax0;
    var mg := Min(reqMaxGroups, f);
    EffectiveGrouping(tmin, tmax, mg, mgs, f,
      When(tmin != reqMin, TARGET_MIN_CAPPED)
      + When(tmax != reqMax, TARGET_MAX_CAPPED)
      + When(mg != reqMaxGroups, MAX_GROUPS_CAPPED))
  }

  /** A request that is already feasible and ordered comes back unchanged, with nothing
      relaxed. */
  lemma FeasibleRequestUnchanged(nAcs: int, reqMin: int, reqMax: int, reqMaxGroups: int, minGroupSize: int)
    requires reqMin <= reqMax
    requires var f := FeasibleGroups(Max(0, nAcs), Max(1, minGroupSize)); reqMax <= f && reqMaxGroups <= f
    ensures var e := ComputeEffectiveGrouping(nAcs, reqMin, reqMax, reqMaxGroups, minGroupSize);
      e.targetMin == reqMin && e.targetMax == reqMax && e.maxGroups == reqMaxGroups && e.relaxations == []
  {
  }

  // ---------------------------------------------------------------------------
  // derive_grouping_policy
  // ---------------------------------------------------------------------------

  datatype GroupingPolicy = GroupingPolicy(
    maxAcPerGroup: int,
    targetMin: int,
    targetMax: int,
    maxGroups: int,
    minGroupSize: int,
    logGroupsIndependent: bool)

  /** The minimum group size `derive_grouping_policy` picks for `n` ACs. */
  function MinGroupSizeFor(n: int): int {
    if n <= 8 then 2 else if n <= 20 then 3 else 4
  }

  /** `derive_grouping_policy`: the default targets 8..12 and the cap of 15 groups, each
      rounded down to what `n` ACs allow. */
  function DeriveGroupingPolicy(n: int): (p: GroupingPolicy)
    ensures p.maxAcPerGroup == 10 && p.logGroupsIndependent
    ensures (n <= 8 ==> p.minGroupSize == 2) && (9 <= n <= 20 ==> p.minGroupSize == 3) && (n > 20 ==> p.minGroupSize == 4)
    ensures 1 <= p.targetMin <= p.targetMax <= p.maxGroups
    ensures p.maxGroups <= 15 && p.targetMax <= 12 && p.targetMin <= 8
  {
    var mgs := MinGroupSizeFor(n);
    var cap := FeasibleGroups(n, mgs);
    GroupingPolicy(10, Min(8, cap), Min(12, cap), Min(15, cap), mgs, true)
  }

  /** The derived policy is the feasibility cap applied to the defaults 8..12 and 15: the
      two modules agree for every AC count, negative counts included. */
  lemma DerivedPolicyIsFeasible(n: int)
    ensures var p := DeriveGroupingPolicy(n);
      var e := ComputeEffectiveGrouping(n, 8, 12, 15, MinGroupSizeFor(n));
      p.targetMin == e.targetMin && p.targetMax == e.targetMax && p.maxGroups == e.maxGroups
      && p.minGroupSize == e.minGroupSize
  {
    var mgs := MinGroupSizeFor(n);
    if n < 0 {
      assert FloorDiv(n, mgs) < 1;
    }
  }

  // ---------------------------------------------------------------------------
  // derive_effective_policy and policy_meta
  // ---------------------------------------------------------------------------

  datatype EffectivePolicy = EffectivePolicy(
    targetMin: int,
    targetMax: int,
    maxGroups: int,
    minGroupSize: int,
    relaxations: seq<string>)

  /** `derive_effective_policy`. The AC count is not clamped here, which makes no
      difference: a negative count also gives a feasibility of one. */
  function DeriveEffectivePolicy(nAcs: int, reqMin: int, reqMax: int, reqMaxGroups: int, minGroupSize: int): (e: EffectivePolicy)
    ensures e.minGroupSize == Max(1, minGroupSize) && e.minGroupSize >= 1
  {
    var mgs := Max(1, minGroupSize);
    var f := FeasibleGroups(nAcs, mgs);
    var minCapped := reqMin > f;
    var tmin1 := if minCapped then f else reqMin;
    var maxCapped := reqMax > f;
    var tmax1 := if maxCapped then f else reqMax;
    var collapsed := tmax1 < tmin1;
    var tmax2 := if collapsed then tmin1 else tmax1;
    var tmin := if minCapped then 1 else tmin1;
    var tmax := if minCapped then f else tmax2;
    var mg := Min(reqMaxGroups, f);
    EffectivePolicy(tmin, tmax, mg, mgs,
      When(minCapped, TARGET_MIN_CAPPED)
      + When(maxCapped, TARGET_MAX_CAPPED)
      + When(collapsed, TARGET_RANGE_COLLAPSED)
      + When(minCapped, TARGET_RANGE_ADJUSTED)
      + When(mg < reqMaxGroups, MAX_GROUPS_CAPPED))
  }

  /** The bounds of the effective policy: the target range is ordered and feasible, and
      the group cap is the smaller of the request and feasibility, recorded when it bites. */
  lemma EffectivePolicyBounds(nAcs: int, reqMin: int, reqMax: int, reqMaxGroups: int, minGroupSize: int)
    ensures var e := DeriveEffectivePolicy(nAcs, reqMin, reqMax, reqMaxGroups, minGroupSize);
      var f := FeasibleGroups(nAcs, e.minGroupSize);
      && e.targetMin <= e.targetMax <= f
      && IsMin(e.maxGroups, reqMaxGroups, f)
      && (MAX_GROUPS_CAPPED in e.relaxations <==> e.maxGroups < reqMaxGroups)
  {
  }

  /** A requested minimum above feasibility resets the target range to `[1, feasible]` and
      records the adjustment; otherwise the range starts at the requested minimum. */
  lemma EffectivePolicyAdjusted(nAcs: int, reqMin: int, reqMax: int, reqMaxGroups: int, minGroupSize: int)
    ensures var e := DeriveEffectivePolicy(nAcs, reqMin, reqMax, reqMaxGroups, minGroupSize);
      var f := FeasibleGroups(nAcs, e.minGroupSize);
      && (reqMin > f ==> e.targetMin == 1 && e.targetMax == f)
      && (reqMin <= f ==> e.targetMin == reqMin)
      && (TARGET_RANGE_ADJUSTED in e.relaxations <==> reqMin > f)
  {
  }

  /** Where the requested minimum is feasible, the clustering agent's policy and the
      feasibility module agree on every bound. */
  lemma EffectiveAgreesWithFeasibility(nAcs: int, reqMin: int, reqMax: int, reqMaxGroups: int, minGroupSize: int)
    requires reqMin <= FeasibleGroups(nAcs, Max(1, minGroupSize))
    ensures var e := DeriveEffectivePolicy(nAcs, reqMin, reqMax, reqMaxGroups, minGroupSize);
      var g := ComputeEffectiveGrouping(nAcs, reqMin, reqMax, reqMaxGroups, minGroupSize);
      e.targetMin == g.targetMin && e.targetMax == g.targetMax && e.maxGroups == g.maxGroups
  {
    var mgs := Max(1, minGroupSize);
    assert FeasibleGroups(nAcs, mgs) == FeasibleGroups(Max(0, nAcs), mgs) by {
      if nAcs < 0 {
        assert FloorDiv(nAcs, mgs) < 1;
        assert FloorDiv(0, mgs) == 0;
      }
    }
  }

  /** The worked example of the clustering policy: 12 ACs in groups of at least 3 allow
      four groups, so the target range 8..12 becomes 1..4 and the cap of 15 becomes 4. */
  lemma EffectivePolicyExample()
    ensures var e := DeriveEffectivePolicy(12, 8, 12, 15, 3);
      e.targetMin == 1 && e.targetMax == 4 && e.maxGroups == 4
      && e.relaxations == [TARGET_MIN_CAPPED, TARGET_MAX_CAPPED, TARGET_RANGE_ADJUSTED, MAX_GROUPS_CAPPED]
  {
    assert FloorDiv(12, 3) == 4;
  }

  /** `policy_meta`. */
  function PolicyMeta(maxPerGroup: int, targetMin: int, targetMax: int, maxGroups: int, minGroupSize: int): (j: Json)
    ensures j.JObj? && "log_split" in j.fields && j.fields["log_split"] == JBool(true)
  {
    JObj(map[
      "max_ac_per_group" := JInt(maxPerGroup),
      "target_groups" := JArr([JInt(targetMin), JInt(targetMax)]),
      "max_groups" := JInt(maxGroups),
      "min_group_size" := JInt(minGroupSize),
      "log_split" := JBool(true)])
  }

  /** Reading the five bounds back out of a policy record. */
  function ReadPolicyMeta(j: Json): Option5 {
    if j.JObj?
      && "max_ac_per_group" in j.fields && j.fields["max_ac_per_group"].JInt?
      && "target_groups" in j.fields && j.fields["target_groups"].JArr?
      && |j.fields["target_groups"].items| == 2
      && j.fields["target_groups"].items[0].JInt? && j.fields["target_groups"].items[1].JInt?
      && "max_groups" in j.fields && j.fields["max_groups"].JInt?
      && "min_group_size" in j.fields && j.fields["min_group_size"].JInt?
    then
      Bounds5(j.fields["max_ac_per_group"].i, j.fields["target_groups"].items[0].i,
        j.fields["target_groups"].items[1].i, j.fields["max_groups"].i, j.fields["min_group_size"].i)
    else NoBounds
  }

  datatype Option5 = NoBounds | Bounds5(maxPerGroup: int, targetMin: int, targetMax: int, maxGroups: int, minGroupSize: int)

  /** The policy record carries all five bounds, unchanged. */
  lemma PolicyMetaRoundTrip(maxPerGroup: int, targetMin: int, targetMax: int, maxGroups: int, minGroupSize: int)
    ensures ReadPolicyMeta(PolicyMeta(maxPerGroup, targetMin, targetMax, maxGroups, minGroupSize))
         == Bounds5(maxPerGroup, targetMin, targetMax, maxGroups, minGroupSize)
  {
  }

  // ---------------------------------------------------------------------------
  // _auto_tune_grouping_policy
  // ---------------------------------------------------------------------------

  datatype TunedPolicy = TunedPolicy(
    maxAcPerGroup: int,
    targetMin: int,
    targetMax: int,
    maxGroups: int,
    minGroupSize: int)

  /** `_auto_tune_grouping_policy`. */
  function AutoTune(n: int, maxAcPerGroup: int, reqMin: int, reqMax: int, reqMaxGroups: int, minGroupSize: int): (t: TunedPolicy)
    ensures t.maxAcPerGroup >= 1 && t.minGroupSize >= 2
    ensures t.maxGroups <= FeasibleGroups(n, t.minGroupSize)
    ensures t.targetMax <= t.maxGroups
    ensures t.targetMax >= 1 ==> t.targetMin <= t.targetMax
    ensures t.targetMin >= 1 || t.targetMin == reqMin
  {
    var per := Max(1, maxAcPerGroup);
    var mgs := Max(2, minGroupSize);
    var mg := Min(reqMaxGroups, FeasibleGroups(n, mgs));
    var tmin1 := if reqMin > mg then Max(1, mg - 2) else reqMin;
    var tmax := if reqMax > mg then mg else reqMax;
    var tmin := if tmin1 > tmax then Max(1, tmax) else tmin1;
    TunedPolicy(per, tmin, tmax, mg, mgs)
  }

  /** Tuning an already tuned policy changes nothing. */
  lemma AutoTuneIdempotent(n: int, maxAcPerGroup: int, reqMin: int, reqMax: int, reqMaxGroups: int, minGroupSize: int)
    ensures var t := AutoTune(n, maxAcPerGroup, reqMin, reqMax, reqMaxGroups, minGroupSize);
      AutoTune(n, t.maxAcPerGroup, t.targetMin, t.targetMax, t.maxGroups, t.minGroupSize) == t
  {
  }

  /** A policy that is already in range is kept as given. */
  lemma AutoTuneKeepsFeasible(n: int, maxAcPerGroup: int, reqMin: int, reqMax: int, reqMaxGroups: int, minGroupSize: int)
    requires maxAcPerGroup >= 1 && minGroupSize >= 2
    requires reqMin <= reqMax <= reqMaxGroups <= FeasibleGroups(n, minGroupSize)
    ensures AutoTune(n, maxAcPerGroup, reqMin, reqMax, reqMaxGroups, minGroupSize)
         == TunedPolicy(maxAcPerGroup, reqMin, reqMax, reqMaxGroups, minGroupSize)
  {
  }
}
