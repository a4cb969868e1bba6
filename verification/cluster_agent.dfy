/**
 * `cluster_acs`: propose a grouping through the external text-synthesis
 * service, validate it against the effective policy, ask for repairs a
 * bounded number of times, and fall back to the keyword bucketer when no
 * acceptable proposal arrives. The service is an oracle: the `k`-th call
 * (counting from 0) answers `ReplyAt(oracle, k)`.
 *
 * The loop is written once for both id-list checks of the validator: `nonEmpty` false is
 * the program as written, which calls `validate_grouping` and so accepts a group with an
 * empty `ac_ids`; `nonEmpty` true is the corrected check (`ValidateGroupingStrict`).
 * `ClusterAcs` is the program as written, `ClusterAcsCorrected` the corrected one.
 */
module ClusterAgent {
  import opened Wrappers
  import opened Strings
  import opened Seqs
  import opened PyJson
  import opened AcMaps
  import opened GroupingSchema
  import opened GroupingValidate
  import opened GroupingFallback
  import opened Policy
  import opened SelfCheck

  // ---------------------------------------------------------------------------
  // The fallback for every step size
  // ---------------------------------------------------------------------------

  /** `simple_fallback_grouping` for any `max_ac_per_group`: a zero step makes `range`
      raise as soon as there is an id to chunk, a negative one yields no chunk. */
  function SimpleFallback(acMap: AcMap, maxPerGroup: int, minGroupSize: int): (r: Result<Grouping>)
    ensures maxPerGroup >= 1 ==> r == Ok(FallbackGrouping(acMap, maxPerGroup, minGroupSize))
    ensures r.Err? <==> maxPerGroup == 0 && |acMap| > 0
    ensures maxPerGroup < 1 && r.Ok? ==> r.value.groups == []
  {
    if maxPerGroup >= 1 then Ok(FallbackGrouping(acMap, maxPerGroup, minGroupSize))
    else if maxPerGroup == 0 && |acMap| > 0 then Err("ValueError: range() arg 3 must not be zero")
    else Ok(Grouping([], FALLBACK_META))
  }

  // ---------------------------------------------------------------------------
  // The loop
  // ---------------------------------------------------------------------------

  /** The limits the proposals are validated against: the effective policy's targets,
      `max_groups` and `min_group_size`, the caller's `max_ac_per_group`, and the log split. */
  function LimitsFor(maxPerGroup: int, eff: EffectivePolicy): Limits {
    Limits(maxPerGroup, eff.targetMin, eff.targetMax, eff.maxGroups, eff.minGroupSize, true)
  }

  /** The validator on a normalised proposal: `validate_grouping` as written, or with the
      corrected id-list check when `nonEmpty`. */
  function Check(g: Grouping, acMap: AcMap, p: Limits, nonEmpty: bool): (r: Result<Verdict>)
    ensures !nonEmpty ==> r == ValidateGrouping(GroupingJson(g.groups, g.meta), acMap, p)
    ensures nonEmpty ==> r == ValidateGroupingStrict(GroupingJson(g.groups, g.meta), acMap, p)
  {
    Validate(GroupingJson(g.groups, g.meta), acMap, p, nonEmpty)
  }

  /** How the validate/repair loop ends: with an accepted proposal, or with the reason for
      giving up. `calls` counts the calls made to the service so far. */
  datatype LoopEnd =
    | Accepted(grouping: Grouping, attempt: nat, warnings: seq<string>, calls: nat)
    | GaveUp(lastErr: string, warnings: seq<string>, calls: nat)

  /** What one round of validation decides about a proposal. */
  datatype Decision =
    | Raised(error: string)
    | Pass(warnings: seq<string>)
    | Fail(lastErr: string, warnings: seq<string>)

  /** Hard and warning messages of a verdict, as `split_issues` sorts them. */
  function HardOfVerdict(v: Verdict): seq<string> {
    Picked(IssueStrs(v.issues), IsHardItem, ItemText)
  }

  function WarnOfVerdict(v: Verdict): seq<string> {
    Picked(IssueStrs(v.issues), IsWarnItem, ItemText)
  }

  /** `"; ".join(hard) if hard else "; ".join(issues)`. */
  function ErrorText(v: Verdict): string {
    var hard := HardOfVerdict(v);
    if hard != [] then Join("; ", hard) else Join("; ", Texts(v.issues))
  }

  /** Validate, split the issues, and decide: accept when the verdict is ok and no issue is
      hard. */
  function Decide(g: Grouping, acMap: AcMap, p: Limits, nonEmpty: bool): (d: Decision) {
    match Check(g, acMap, p, nonEmpty)
    case Err(e) => Raised(e)
    case Ok(v) =>
      if v.ok && HardOfVerdict(v) == [] then Pass(WarnOfVerdict(v)) else Fail(ErrorText(v), WarnOfVerdict(v))
  }

  function DecideWith(acMap: AcMap, p: Limits, nonEmpty: bool): Grouping -> Decision {
    g => Decide(g, acMap, p, nonEmpty)
  }

  /** The loop `for attempt in range(0, max_repairs + 1)` from `attempt` on, with the
      current proposal `g`: `decide` validates a proposal, `propose` normalises a repair
      reply. It is written as three mutually recursive steps: the loop test, one attempt,
      and one repair call. */
  function RepairLoop(decide: Grouping -> Decision, propose: Json -> Grouping, maxRepairs: int,
                      oracle: seq<Reply<Json>>, attempt: nat, g: Grouping, lastErr: string,
                      warnings: seq<string>, calls: nat): Result<LoopEnd>
    decreases if attempt <= maxRepairs then maxRepairs - attempt + 1 else 0, 2
  {
    if attempt > maxRepairs then Ok(GaveUp(lastErr, warnings, calls))
    else Attempt(decide, propose, maxRepairs, oracle, attempt, g, calls)
  }

  /** One attempt: validate `g`; accept it, or give up once `attempt` reaches
      `max_repairs`, or ask for a repair. */
  function Attempt(decide: Grouping -> Decision, propose: Json -> Grouping, maxRepairs: int,
                   oracle: seq<Reply<Json>>, attempt: nat, g: Grouping, calls: nat): Result<LoopEnd>
    requires attempt <= maxRepairs
    decreases maxRepairs - attempt + 1, 1
  {
    match decide(g)
    case Raised(e) => Err(e)
    case Pass(warn) => Ok(Accepted(g, attempt, warn, calls))
    case Fail(err, warn) =>
      if attempt >= maxRepairs then Ok(GaveUp(err, warn, calls))
      else Repair(decide, propose, maxRepairs, oracle, attempt, err, warn, calls)
  }

  /** One repair call: a failed call leaves the loop (`break`), an answer is normalised and
      becomes the proposal of the next attempt. */
  function Repair(decide: Grouping -> Decision, propose: Json -> Grouping, maxRepairs: int,
                  oracle: seq<Reply<Json>>, attempt: nat, err: string, warn: seq<string>, calls: nat): Result<LoopEnd>
    requires attempt < maxRepairs
    decreases maxRepairs - attempt + 1, 0
  {
    match ReplyAt(oracle, calls)
    case CallFailed(e) => Ok(GaveUp("repair_call_failed: " + e, warn, calls + 1))
    case Answer(raw) => RepairLoop(decide, propose, maxRepairs, oracle, attempt + 1, propose(raw), err, warn, calls + 1)
  }

  /** When `decide` never raises on a `good` proposal and every proposal is good, the loop
      never raises; an accepted proposal passed `decide` after `attempt` repairs, each one a
      call. */
  lemma {:induction false} RepairLoopFacts(decide: Grouping -> Decision, propose: Json -> Grouping,
                                           good: Grouping -> bool, maxRepairs: int, oracle: seq<Reply<Json>>,
                                           attempt: nat, g: Grouping, lastErr: string, warnings: seq<string>, calls: nat)
    requires forall h :: good(h) ==> !decide(h).Raised?
    requires forall raw :: good(propose(raw))
    requires good(g) && calls == attempt + 1
    ensures var r := RepairLoop(decide, propose, maxRepairs, oracle, attempt, g, lastErr, warnings, calls);
      && r.Ok?
      && calls <= r.value.calls <= Max(calls, maxRepairs + 1)
      && (r.value.Accepted? ==>
            r.value.calls == r.value.attempt + 1 && good(r.value.grouping) && decide(r.value.grouping).Pass?)
    decreases if attempt <= maxRepairs then maxRepairs - attempt + 1 else 0
  {
    if attempt <= maxRepairs && decide(g).Fail? && attempt < maxRepairs {
      assert Attempt(decide, propose, maxRepairs, oracle, attempt, g, calls)
          == Repair(decide, propose, maxRepairs, oracle, attempt, decide(g).lastErr, decide(g).warnings, calls);
    }
    if attempt <= maxRepairs && decide(g).Fail? && attempt < maxRepairs && ReplyAt(oracle, calls).Answer? {
      RepairLoopFacts(decide, propose, good, maxRepairs, oracle, attempt + 1, propose(ReplyAt(oracle, calls).body),
                      decide(g).lastErr, decide(g).warnings, calls + 1);
    }
  }

  /** A failed call stops the loop: no later call is made, and when the loop made that call
      it gives up with the call's reason. */
  lemma {:induction false} RepairLoopStopsAtFailure(decide: Grouping -> Decision, propose: Json -> Grouping,
                                                    maxRepairs: int, oracle: seq<Reply<Json>>, attempt: nat,
                                                    g: Grouping, lastErr: string, warnings: seq<string>,
                                                    calls: nat, k: nat)
    requires calls <= k && ReplyAt(oracle, k).CallFailed?
    ensures var r := RepairLoop(decide, propose, maxRepairs, oracle, attempt, g, lastErr, warnings, calls);
      r.Ok? ==>
        && r.value.calls <= k + 1
        && (r.value.calls == k + 1 ==> r.value.GaveUp? && r.value.lastErr == "repair_call_failed: " + ReplyAt(oracle, k).reason)
    decreases if attempt <= maxRepairs then maxRepairs - attempt + 1 else 0
  {
    if attempt <= maxRepairs && decide(g).Fail? && attempt < maxRepairs {
      assert Attempt(decide, propose, maxRepairs, oracle, attempt, g, calls)
          == Repair(decide, propose, maxRepairs, oracle, attempt, decide(g).lastErr, decide(g).warnings, calls);
    }
    if attempt <= maxRepairs && decide(g).Fail? && attempt < maxRepairs && ReplyAt(oracle, calls).Answer? {
      assert calls != k;
      RepairLoopStopsAtFailure(decide, propose, maxRepairs, oracle, attempt + 1, propose(ReplyAt(oracle, calls).body),
                               decide(g).lastErr, decide(g).warnings, calls + 1, k);
    }
  }

  /** Every group of a proposal is well formed. */
  predicate WellFormedGrouping(g: Grouping) {
    forall i :: 0 <= i < |g.groups| ==> WellFormedGroup(g.groups[i])
  }

  /** The validator never raises on a normalised proposal, and it accepts one exactly when
      the verdict is ok with no hard issue. */
  lemma DecideFacts(acMap: AcMap, p: Limits, nonEmpty: bool)
    ensures forall h :: WellFormedGrouping(h) ==> !DecideWith(acMap, p, nonEmpty)(h).Raised?
    ensures forall raw :: WellFormedGrouping(NormalizeGroupingObj(raw))
    ensures forall h :: DecideWith(acMap, p, nonEmpty)(h).Pass? ==>
      && Check(h, acMap, p, nonEmpty).Ok? && Check(h, acMap, p, nonEmpty).value.ok
      && HardOfVerdict(Check(h, acMap, p, nonEmpty).value) == []
  {
    forall h | WellFormedGrouping(h) ensures !DecideWith(acMap, p, nonEmpty)(h).Raised? {
      NormalizedNeverRaises(h.groups, h.meta, acMap, p, nonEmpty);
    }
  }

  /** A normalised proposal is accepted exactly when it has a group and its groups are
      acceptable in their own terms; with the check as written an empty group is
      acceptable, with the corrected one it is not. */
  lemma DecidePassIff(g: Grouping, acMap: AcMap, p: Limits, nonEmpty: bool)
    requires WellFormedGrouping(g)
    ensures Decide(g, acMap, p, nonEmpty).Pass? <==> |g.groups| > 0 && AcceptableGroups(g.groups, acMap, p, nonEmpty)
  {
    ValidateNormalized(g.groups, g.meta, acMap, p, nonEmpty);
    SplitAgreesWithVerdict(GroupingJson(g.groups, g.meta), acMap, p, nonEmpty);
  }

  // ---------------------------------------------------------------------------
  // cluster_acs
  // ---------------------------------------------------------------------------

  /** The keys `cluster_acs` writes into `meta`. `repairsUsed` is present only on an
      accepted proposal, `reason` only on the fallback. */
  datatype ClusterMeta = ClusterMeta(
    fallback: bool,
    repairsUsed: Option<nat>,
    reason: Option<string>,
    warnings: seq<string>,
    policy: Json,
    selfCheck: Report)

  /** The grouping `cluster_acs` returns: its groups, the `meta` it started from, the keys
      written over it, and the number of service calls made. */
  datatype Clustered = Clustered(groups: seq<Group>, baseMeta: Json, info: ClusterMeta, calls: nat)

  /** The requested policy of one run. */
  datatype Request = Request(
    maxAcPerGroup: int,
    targetGroupsMin: int,
    targetGroupsMax: int,
    maxGroups: int,
    minGroupSize: int,
    maxRepairs: int)

  function EffectiveFor(acMap: AcMap, req: Request): EffectivePolicy {
    DeriveEffectivePolicy(|acMap|, req.targetGroupsMin, req.targetGroupsMax, req.maxGroups, req.minGroupSize)
  }

  /** The loop as `cluster_acs` starts it: call 0 proposes; an empty proposal (a failed
      first call) leaves the loop at once. */
  function RunLoop(acMap: AcMap, req: Request, oracle: seq<Reply<Json>>, nonEmpty: bool): Result<LoopEnd> {
    var eff := EffectiveFor(acMap, req);
    match ReplyAt(oracle, 0)
    case CallFailed(e) => Ok(GaveUp("initial_call_failed: " + e, [], 1))
    case Answer(raw) =>
      RepairLoop(DecideWith(acMap, LimitsFor(req.maxAcPerGroup, eff), nonEmpty), NormalizeGroupingObj, req.maxRepairs,
                 oracle, 0, NormalizeGroupingObj(raw), "", [], 1)
  }

  /** The tail of `cluster_acs`: an accepted proposal is returned as it stands, otherwise
      the deterministic fallback is; either way the self-check report is attached. */
  function Finish(end: LoopEnd, acMap: AcMap, req: Request): (r: Result<Clustered>)
    ensures r.Ok? ==> r.value.calls == end.calls && r.value.info.selfCheck.nAcs == |acMap|
    ensures r.Ok? ==> (r.value.info.fallback <==> end.GaveUp?)
    ensures end.Accepted? && r.Ok? ==>
      && r.value.groups == end.grouping.groups && r.value.baseMeta == end.grouping.meta
      && r.value.info.repairsUsed == Some(end.attempt) && r.value.info.reason.None?
    ensures end.Accepted? ==> r.Ok?
    ensures end.GaveUp? && r.Ok? ==>
      && r.value.info.repairsUsed.None?
      && r.value.info.reason == Some("cluster_failed: " + end.lastErr)
      && r.value.info.selfCheck.relaxations == EffectiveFor(acMap, req).relaxations + ["fallback_used"]
    ensures end.GaveUp? && req.maxAcPerGroup >= 1 ==>
      && r.Ok?
      && r.value.groups == FallbackGrouping(acMap, req.maxAcPerGroup, EffectiveFor(acMap, req).minGroupSize).groups
  {
    var eff := EffectiveFor(acMap, req);
    var policy := PolicyMeta(req.maxAcPerGroup, eff.targetMin, eff.targetMax, eff.maxGroups, eff.minGroupSize);
    match end
    case Accepted(g, attempt, warn, calls) =>
      GroupsNeverRaise(g.groups);
      var sc := BuildSelfCheckPy(GroupsToJson(g.groups), acMap, req.maxAcPerGroup, eff.minGroupSize, eff.relaxations).value;
      Ok(Clustered(g.groups, g.meta, ClusterMeta(false, Some(attempt), None, warn, policy, sc), calls))
    case GaveUp(err, warn, calls) =>
      var fb :- SimpleFallback(acMap, req.maxAcPerGroup, eff.minGroupSize);
      GroupsNeverRaise(fb.groups);
      var sc := BuildSelfCheckPy(GroupsToJson(fb.groups), acMap, req.maxAcPerGroup, eff.minGroupSize,
                                 eff.relaxations + ["fallback_used"]).value;
      Ok(Clustered(fb.groups, fb.meta, ClusterMeta(true, None, Some("cluster_failed: " + err), warn, policy, sc), calls))
  }

  /** `cluster_acs` with either id-list check. */
  function ClusterAcsWith(acMap: AcMap, req: Request, oracle: seq<Reply<Json>>, nonEmpty: bool): Result<Clustered> {
    var end :- RunLoop(acMap, req, oracle, nonEmpty);
    Finish(end, acMap, req)
  }

  /** `cluster_acs` as written: proposals are checked by `validate_grouping`. */
  function ClusterAcs(acMap: AcMap, req: Request, oracle: seq<Reply<Json>>): (r: Result<Clustered>)
    ensures r.Ok? ==> r.value.info.selfCheck.nAcs == |acMap|
    ensures r.Ok? && !r.value.info.fallback ==> r.value.info.repairsUsed.Some? && r.value.info.reason.None?
  {
    ClusterAcsWith(acMap, req, oracle, false)
  }

  /** `cluster_acs` with the corrected id-list check, which never accepts an empty group. */
  function ClusterAcsCorrected(acMap: AcMap, req: Request, oracle: seq<Reply<Json>>): (r: Result<Clustered>)
    ensures r.Ok? ==> r.value.info.selfCheck.nAcs == |acMap|
    ensures r.Ok? && !r.value.info.fallback ==> r.value.info.repairsUsed.Some? && r.value.info.reason.None?
  {
    ClusterAcsWith(acMap, req, oracle, true)
  }

  // ---------------------------------------------------------------------------
  // What cluster_acs promises
  // ---------------------------------------------------------------------------

  /** The loop always ends, after between one and `1 + max(0, max_repairs)` calls, and an
      accepted proposal is well formed and passed the validator, with no hard issue. */
  lemma RunLoopFacts(acMap: AcMap, req: Request, oracle: seq<Reply<Json>>, nonEmpty: bool)
    ensures var p := LimitsFor(req.maxAcPerGroup, EffectiveFor(acMap, req)); var r := RunLoop(acMap, req, oracle, nonEmpty);
      && r.Ok?
      && 1 <= r.value.calls <= 1 + Max(0, req.maxRepairs)
      && (r.value.Accepted? ==>
            && r.value.calls == r.value.attempt + 1
            && WellFormedGrouping(r.value.grouping)
            && Check(r.value.grouping, acMap, p, nonEmpty).Ok?
            && Check(r.value.grouping, acMap, p, nonEmpty).value.ok
            && HardOfVerdict(Check(r.value.grouping, acMap, p, nonEmpty).value) == [])
  {
    var p := LimitsFor(req.maxAcPerGroup, EffectiveFor(acMap, req));
    if ReplyAt(oracle, 0).Answer? {
      DecideFacts(acMap, p, nonEmpty);
      RepairLoopFacts(DecideWith(acMap, p, nonEmpty), NormalizeGroupingObj, WellFormedGrouping, req.maxRepairs, oracle, 0,
                      NormalizeGroupingObj(ReplyAt(oracle, 0).body), "", [], 1);
    }
  }

  /** The run never raises when `max_ac_per_group` is positive, and makes at most one call
      plus one per allowed repair. */
  lemma ClusterCallBound(acMap: AcMap, req: Request, oracle: seq<Reply<Json>>, nonEmpty: bool)
    requires req.maxAcPerGroup >= 1
    ensures var r := ClusterAcsWith(acMap, req, oracle, nonEmpty);
      r.Ok? && 1 <= r.value.calls <= 1 + Max(0, req.maxRepairs)
  {
    RunLoopFacts(acMap, req, oracle, nonEmpty);
  }

  /** A proposal is returned only when the validator, run with the effective policy, found it
      ok with no hard issue: `validate_grouping` as written, the corrected check otherwise. */
  lemma ClusterAcceptedIsValid(acMap: AcMap, req: Request, oracle: seq<Reply<Json>>, nonEmpty: bool)
    requires ClusterAcsWith(acMap, req, oracle, nonEmpty).Ok? && !ClusterAcsWith(acMap, req, oracle, nonEmpty).value.info.fallback
    ensures var c := ClusterAcsWith(acMap, req, oracle, nonEmpty).value;
      var j := GroupingJson(c.groups, c.baseMeta);
      var p := LimitsFor(req.maxAcPerGroup, EffectiveFor(acMap, req));
      var v := if nonEmpty then ValidateGroupingStrict(j, acMap, p) else ValidateGrouping(j, acMap, p);
      v.Ok? && v.value.ok && HardOfVerdict(v.value) == []
  {
    RunLoopFacts(acMap, req, oracle, nonEmpty);
    var g := RunLoop(acMap, req, oracle, nonEmpty).value.grouping;
    assert ClusterAcsWith(acMap, req, oracle, nonEmpty).value.groups == g.groups;
    assert ClusterAcsWith(acMap, req, oracle, nonEmpty).value.baseMeta == g.meta;
  }

  /** A loop whose current proposal passes accepts it at once, making no call. */
  lemma AttemptPasses(decide: Grouping -> Decision, propose: Json -> Grouping, maxRepairs: int,
                      oracle: seq<Reply<Json>>, g: Grouping, calls: nat)
    requires 0 <= maxRepairs && decide(g).Pass?
    ensures RepairLoop(decide, propose, maxRepairs, oracle, 0, g, "", [], calls) == Ok(Accepted(g, 0, decide(g).warnings, calls))
  {
    assert RepairLoop(decide, propose, maxRepairs, oracle, 0, g, "", [], calls)
        == Attempt(decide, propose, maxRepairs, oracle, 0, g, calls);
  }

  /** With a non-negative `max_repairs`, a first proposal that passes is returned at once:
      no repair, no fallback, one call. */
  lemma ClusterAcceptsFirst(acMap: AcMap, req: Request, oracle: seq<Reply<Json>>, nonEmpty: bool)
    requires req.maxRepairs >= 0 && ReplyAt(oracle, 0).Answer?
    requires Decide(NormalizeGroupingObj(ReplyAt(oracle, 0).body), acMap, LimitsFor(req.maxAcPerGroup, EffectiveFor(acMap, req)), nonEmpty).Pass?
    ensures var r := ClusterAcsWith(acMap, req, oracle, nonEmpty); var g := NormalizeGroupingObj(ReplyAt(oracle, 0).body);
      && r.Ok? && !r.value.info.fallback && r.value.calls == 1 && r.value.info.repairsUsed == Some(0)
      && r.value.groups == g.groups && r.value.baseMeta == g.meta
  {
    var g := NormalizeGroupingObj(ReplyAt(oracle, 0).body);
    var decide := DecideWith(acMap, LimitsFor(req.maxAcPerGroup, EffectiveFor(acMap, req)), nonEmpty);
    assert decide(g).Pass?;
    AttemptPasses(decide, NormalizeGroupingObj, req.maxRepairs, oracle, g, 1);
    var end := Accepted(g, 0, decide(g).warnings, 1);
    assert RunLoop(acMap, req, oracle, nonEmpty) == Ok(end);
    assert ClusterAcsWith(acMap, req, oracle, nonEmpty) == Finish(end, acMap, req);
  }

  /** An accepted proposal reports as `repairs_used` the attempt that produced it: one less
      than the calls made, and at most `max_repairs`. */
  lemma ClusterRepairsUsed(acMap: AcMap, req: Request, oracle: seq<Reply<Json>>, nonEmpty: bool)
    requires ClusterAcsWith(acMap, req, oracle, nonEmpty).Ok? && !ClusterAcsWith(acMap, req, oracle, nonEmpty).value.info.fallback
    ensures var c := ClusterAcsWith(acMap, req, oracle, nonEmpty).value;
      c.info.repairsUsed.Some? && c.info.repairsUsed.value + 1 == c.calls && c.info.repairsUsed.value <= Max(0, req.maxRepairs)
  {
    RunLoopFacts(acMap, req, oracle, nonEmpty);
    var end := RunLoop(acMap, req, oracle, nonEmpty).value;
    var c := Finish(end, acMap, req).value;
    assert c == ClusterAcsWith(acMap, req, oracle, nonEmpty).value;
    assert end.Accepted?;
    assert c.info.repairsUsed == Some(end.attempt) && c.calls == end.calls == end.attempt + 1;
  }

  /** The fallback reasons, written as one literal. */
  lemma ReasonTexts(e: string)
    ensures "cluster_failed: " + ("initial_call_failed: " + e) == "cluster_failed: initial_call_failed: " + e
    ensures "cluster_failed: " + ("repair_call_failed: " + e) == "cluster_failed: repair_call_failed: " + e
  {
  }

  /** A failed first call means no repair is attempted and the fallback is returned. */
  lemma ClusterInitialFailure(acMap: AcMap, req: Request, oracle: seq<Reply<Json>>, nonEmpty: bool)
    requires ReplyAt(oracle, 0).CallFailed? && req.maxAcPerGroup >= 1
    ensures var r := ClusterAcsWith(acMap, req, oracle, nonEmpty);
      && r.Ok? && r.value.calls == 1 && r.value.info.fallback
      && r.value.info.reason == Some("cluster_failed: initial_call_failed: " + ReplyAt(oracle, 0).reason)
      && r.value.groups == FallbackGrouping(acMap, req.maxAcPerGroup, EffectiveFor(acMap, req).minGroupSize).groups
  {
    var e := ReplyAt(oracle, 0).reason;
    assert RunLoop(acMap, req, oracle, nonEmpty) == Ok(GaveUp("initial_call_failed: " + e, [], 1));
    ReasonTexts(e);
  }

  /** A failed repair call ends the run: no later call is made, and when it was made the
      fallback reports it as the reason. */
  lemma ClusterRepairFailure(acMap: AcMap, req: Request, oracle: seq<Reply<Json>>, nonEmpty: bool, k: nat)
    requires 1 <= k && ReplyAt(oracle, k).CallFailed?
    ensures var r := ClusterAcsWith(acMap, req, oracle, nonEmpty);
      r.Ok? ==>
        && r.value.calls <= k + 1
        && (r.value.calls == k + 1 ==>
              r.value.info.fallback && r.value.info.reason == Some("cluster_failed: repair_call_failed: " + ReplyAt(oracle, k).reason))
  {
    var eff := EffectiveFor(acMap, req);
    var e := ReplyAt(oracle, k).reason;
    var run := RunLoop(acMap, req, oracle, nonEmpty);
    if ReplyAt(oracle, 0).Answer? {
      RepairLoopStopsAtFailure(DecideWith(acMap, LimitsFor(req.maxAcPerGroup, eff), nonEmpty), NormalizeGroupingObj,
                               req.maxRepairs, oracle, 0, NormalizeGroupingObj(ReplyAt(oracle, 0).body), "", [], 1, k);
    }
    if run.Ok? {
      assert run.value.calls <= k + 1;
      assert ClusterAcsWith(acMap, req, oracle, nonEmpty) == Finish(run.value, acMap, req);
      if run.value.calls == k + 1 {
        assert run.value.GaveUp? && run.value.lastErr == "repair_call_failed: " + e;
        ReasonTexts(e);
      }
    }
  }

  /** Whatever the service answers, the returned groups assign every AC exactly once, each
      group holds at most `max_ac_per_group` ids, and the self-check finds nothing missing,
      duplicated or unknown. Every group holds at least one id when the fallback was used
      or the corrected check accepted the proposal; as written, an accepted proposal may
      hold an empty group (`ClusterAcceptsEmptyGroup`). */
  lemma ClusterCoverage(acMap: AcMap, req: Request, oracle: seq<Reply<Json>>, nonEmpty: bool)
    requires req.maxAcPerGroup >= 1
    ensures var r := ClusterAcsWith(acMap, req, oracle, nonEmpty);
      && r.Ok?
      && multiset(AllAcIds(r.value.groups)) == multiset(Keys(acMap))
      && SizesOk(r.value.groups, req.maxAcPerGroup, nonEmpty)
      && (r.value.info.fallback ==> SizesWithin(r.value.groups, req.maxAcPerGroup))
      && r.value.info.selfCheck.missingIds == []
      && r.value.info.selfCheck.duplicateIds == []
      && r.value.info.selfCheck.unknownIds == []
  {
    var eff := EffectiveFor(acMap, req);
    var p := LimitsFor(req.maxAcPerGroup, eff);
    RunLoopFacts(acMap, req, oracle, nonEmpty);
    var end := RunLoop(acMap, req, oracle, nonEmpty).value;
    if end.Accepted? {
      var g := end.grouping;
      ValidateNormalized(g.groups, g.meta, acMap, p, nonEmpty);
      assert AcceptableGroups(g.groups, acMap, p, nonEmpty);
      PartitionReportsClean(g.groups, acMap, req.maxAcPerGroup, eff.minGroupSize, eff.relaxations);
    } else {
      var fb := FallbackGrouping(acMap, req.maxAcPerGroup, eff.minGroupSize);
      FallbackPartition(acMap, req.maxAcPerGroup, eff.minGroupSize);
      PartitionReportsClean(fb.groups, acMap, req.maxAcPerGroup, eff.minGroupSize, eff.relaxations + ["fallback_used"]);
    }
  }

  /** With the corrected check, every returned group holds between one and
      `max_ac_per_group` ids, whether it was accepted or came from the fallback. */
  lemma ClusterCorrectedGroupsNonEmpty(acMap: AcMap, req: Request, oracle: seq<Reply<Json>>)
    requires req.maxAcPerGroup >= 1
    ensures var r := ClusterAcsCorrected(acMap, req, oracle);
      r.Ok? && SizesWithin(r.value.groups, req.maxAcPerGroup)
  {
    ClusterCoverage(acMap, req, oracle, true);
  }

  // ---------------------------------------------------------------------------
  // The empty group, as written
  // ---------------------------------------------------------------------------

  /** Groups of at most ten ACs, a target of one or two groups, at most two groups, groups
      of at least two ACs, two repairs. */
  const EMPTY_GROUP_REQUEST: Request := Request(10, 1, 2, 2, 2, 2)

  /** The service's first reply: `G01` with all five ACs and `G02` with none. */
  const EMPTY_GROUP_REPLY: Json := GroupingJson(WITH_EMPTY_GROUP, JObj(map[]))

  /** As written, `cluster_acs` returns the proposal with the empty group `G02` as it
      stands, without a repair and without the fallback. */
  lemma ClusterAcceptsEmptyGroup()
    ensures var r := ClusterAcs(FIVE_ACS, EMPTY_GROUP_REQUEST, [Answer(EMPTY_GROUP_REPLY)]);
      && r.Ok? && !r.value.info.fallback && r.value.info.repairsUsed == Some(0)
      && r.value.groups == WITH_EMPTY_GROUP && |r.value.groups[1].acIds| == 0
  {
    var oracle := [Answer(EMPTY_GROUP_REPLY)];
    var eff := EffectiveFor(FIVE_ACS, EMPTY_GROUP_REQUEST);
    var p := LimitsFor(10, eff);
    assert FeasibleGroups(5, 2) == 2;
    assert p.maxPerGroup == 10 && p.maxGroups == 2 && p.minGroupSize == 2;
    WithEmptyGroupWellFormed();
    NormalizeGroupingJson(WITH_EMPTY_GROUP, JObj(map[]));
    var g := NormalizeGroupingObj(EMPTY_GROUP_REPLY);
    assert g == Grouping(WITH_EMPTY_GROUP, JObj(map[]));
    WithEmptyGroupAcceptable(p);
    DecidePassIff(g, FIVE_ACS, p, false);
    ClusterAcceptsFirst(FIVE_ACS, EMPTY_GROUP_REQUEST, oracle, false);
  }

  /** With the corrected check the same reply is not accepted as it stands. */
  lemma CorrectedRejectsEmptyGroup()
    ensures var g := NormalizeGroupingObj(EMPTY_GROUP_REPLY);
      !Decide(g, FIVE_ACS, LimitsFor(10, EffectiveFor(FIVE_ACS, EMPTY_GROUP_REQUEST)), true).Pass?
  {
    var p := LimitsFor(10, EffectiveFor(FIVE_ACS, EMPTY_GROUP_REQUEST));
    WithEmptyGroupWellFormed();
    NormalizeGroupingJson(WITH_EMPTY_GROUP, JObj(map[]));
    var g := NormalizeGroupingObj(EMPTY_GROUP_REPLY);
    assert g.groups == WITH_EMPTY_GROUP;
    DecidePassIff(g, FIVE_ACS, p, true);
    assert |g.groups[1].acIds| == 0;
  }
}
