/**
 * `run.py`: the command-line driver of the grouped pipeline. It reads the story and its ACs,
 * selects a range of them, numbers them `AC-001`, `AC-002`, ..., tunes the grouping policy,
 * groups the ACs, and generates tasks group by group, routing every grouping failure to the
 * failsafe output of one task per AC. File I/O, the clock and the model name are left out;
 * the two external services are oracles.
 */
module RunMain {
  import opened Wrappers
  import opened Strings
  import opened Seqs
  import opened PyJson
  import opened AcMaps
  import opened Policy
  import opened GroupingSchema
  import opened ClusterAgent
  import opened GroupTaskgen
  import opened FailsafeTasks
  import FallbackTasks

  // ---------------------------------------------------------------------------
  // extract_story_and_acs
  // ---------------------------------------------------------------------------

  /** The four story fields, each `input_obj.get(key, "")`. */
  datatype Story = Story(domain: Json, persona: Json, action: Json, reason: Json)

  function StoryOf(input: Obj): Story {
    Story(Get(input, "domain", JStr("")), Get(input, "persona", JStr("")),
          Get(input, "action", JStr("")), Get(input, "reason", JStr("")))
  }

  /** The values that survive `t = str(x).strip(); if t: acs.append(t)`, with `str` as a
      parameter. */
  function NonBlankTexts(xs: seq<Json>, str: Json -> string): (r: seq<string>)
    ensures |r| <= |xs|
    ensures forall i :: 0 <= i < |r| ==> |r[i]| > 0 && Stripped(r[i])
    decreases |xs|
  {
    if |xs| == 0 then []
    else
      var t := Strip(str(xs[0]));
      StripSpec(str(xs[0]));
      (if |t| > 0 then [t] else []) + NonBlankTexts(xs[1..], str)
  }

  /** A text is kept exactly when it is the non-empty stripped form of some value. */
  lemma {:induction false} NonBlankTextsMembers(xs: seq<Json>, str: Json -> string, t: string)
    ensures t in NonBlankTexts(xs, str) <==> |t| > 0 && exists i :: 0 <= i < |xs| && Strip(str(xs[i])) == t
    decreases |xs|
  {
    if |xs| > 0 {
      NonBlankTextsMembers(xs[1..], str, t);
      if |t| > 0 && exists i :: 0 <= i < |xs| && Strip(str(xs[i])) == t {
        var i :| 0 <= i < |xs| && Strip(str(xs[i])) == t;
        if i > 0 {
          assert xs[1..][i - 1] == xs[i];
        }
      }
      if exists i :: 0 <= i < |xs[1..]| && Strip(str(xs[1..][i])) == t {
        var i :| 0 <= i < |xs[1..]| && Strip(str(xs[1..][i])) == t;
        assert xs[i + 1] == xs[1..][i];
      }
    }
  }

  /** No value yields nothing only when every value is blank once converted. */
  lemma {:induction false} NonBlankTextsEmpty(xs: seq<Json>, str: Json -> string)
    ensures |NonBlankTexts(xs, str)| == 0 <==> forall i :: 0 <= i < |xs| ==> Blank(str(xs[i]))
    decreases |xs|
  {
    if |xs| > 0 {
      StripEmptyIffBlank(str(xs[0]));
      NonBlankTextsEmpty(xs[1..], str);
      assert forall i :: 1 <= i < |xs| ==> xs[1..][i - 1] == xs[i];
    }
  }

  /** `[it["ac_text"] for it in items if isinstance(it, dict) and it.get("ac_text")]`. */
  function AcTextValues(items: seq<Json>): (r: seq<Json>)
    ensures |r| <= |items|
    decreases |items|
  {
    if |items| == 0 then []
    else
      var v := if items[0].JObj? then Get(items[0].fields, "ac_text", JNull) else JNull;
      (if Truthy(v) then [v] else []) + AcTextValues(items[1..])
  }

  /** The ACs of the `acceptance_criteria` list, when it is a list. */
  function CriteriaTexts(input: Obj): seq<string> {
    var v := Get(input, "acceptance_criteria", JNull);
    if v.JArr? then NonBlankTexts(v.items, PyStr) else []
  }

  /** The ACs of the `items[*].ac_text` values, when `items` is a list. */
  function ItemTexts(input: Obj): seq<string> {
    var v := Get(input, "items", JNull);
    if v.JArr? then NonBlankTexts(AcTextValues(v.items), PyStr) else []
  }

  /** `extract_story_and_acs(input_obj)`. */
  function ExtractStoryAndAcs(input: Obj): (Story, seq<string>) {
    var acs := CriteriaTexts(input);
    (StoryOf(input), if |acs| == 0 then ItemTexts(input) else acs)
  }

  /** Every AC is stripped and non-empty; the `acceptance_criteria` list wins whenever it
      gives at least one AC, and the items are read only when it gives none. */
  lemma ExtractSpec(input: Obj)
    ensures var acs := ExtractStoryAndAcs(input).1;
      && (forall i :: 0 <= i < |acs| ==> |acs[i]| > 0 && Stripped(acs[i]))
      && (|CriteriaTexts(input)| > 0 ==> acs == CriteriaTexts(input))
      && (|CriteriaTexts(input)| == 0 ==> acs == ItemTexts(input))
  {
  }

  /** A list of criteria gives exactly its non-blank entries, stripped. */
  lemma CriteriaTextsMembers(input: Obj, t: string)
    requires Get(input, "acceptance_criteria", JNull).JArr?
    ensures var xs := Get(input, "acceptance_criteria", JNull).items;
      t in CriteriaTexts(input) <==> |t| > 0 && exists i :: 0 <= i < |xs| && Strip(PyStr(xs[i])) == t
  {
    NonBlankTextsMembers(Get(input, "acceptance_criteria", JNull).items, PyStr, t);
  }

  // ---------------------------------------------------------------------------
  // build_ac_map
  // ---------------------------------------------------------------------------

  /** `f"{ac_prefix}-{i:03d}"`. */
  function AcId(prefix: string, i: nat): string {
    prefix + "-" + PadNat(i, 3)
  }

  /** Different numbers give different ids, and the id sorts by its number. */
  lemma AcIdSpec(prefix: string, i: nat, j: nat)
    ensures AcId(prefix, i) == AcId(prefix, j) ==> i == j
    ensures FallbackTasks.SortNumber(AcId(prefix, i)) == i
  {
    var p := prefix + "-";
    assert AcId(prefix, i) == p + PadNat(i, 3) && AcId(prefix, j) == p + PadNat(j, 3);
    FallbackTasks.SortNumberOfPadded(p, i, 3);
    FallbackTasks.SortNumberOfPadded(p, j, 3);
  }

  lemma AcIdsDistinct(prefix: string)
    ensures forall i: nat, j: nat :: AcId(prefix, i) == AcId(prefix, j) ==> i == j
  {
    forall i: nat, j: nat | AcId(prefix, i) == AcId(prefix, j) ensures i == j {
      AcIdSpec(prefix, i, j);
    }
  }

  /** `build_ac_map(acs, ac_prefix=prefix)`: the `i`-th AC (from 1) under `prefix-00i`. */
  function BuildAcMap(acs: seq<string>, prefix: string): (m: AcMap)
    ensures |m| == |acs|
    ensures forall i :: 0 <= i < |acs| ==> m[i].1 == acs[i]
  {
    AcIdsDistinct(prefix);
    seq(|acs|, i requires 0 <= i < |acs| => (AcId(prefix, i + 1), acs[i]))
  }

  /** The map holds every AC in order under consecutive ids, so its ids are distinct and its
      order is the order `_sort_ac_items` would give. */
  lemma BuildAcMapSpec(acs: seq<string>, prefix: string)
    ensures var m := BuildAcMap(acs, prefix);
      && (forall i :: 0 <= i < |acs| ==> m[i] == (AcId(prefix, i + 1), acs[i]))
      && (forall i, j :: 0 <= i < j < |m| ==> FallbackTasks.SortNumber(m[i].0) < FallbackTasks.SortNumber(m[j].0))
  {
    var m := BuildAcMap(acs, prefix);
    forall i, j | 0 <= i < j < |m| ensures FallbackTasks.SortNumber(m[i].0) < FallbackTasks.SortNumber(m[j].0) {
      assert m[i].0 == AcId(prefix, i + 1) && m[j].0 == AcId(prefix, j + 1);
      AcIdsOrdered(prefix, i + 1, j + 1);
    }
  }

  lemma AcIdsOrdered(prefix: string, i: nat, j: nat)
    requires i < j
    ensures FallbackTasks.SortNumber(AcId(prefix, i)) < FallbackTasks.SortNumber(AcId(prefix, j))
  {
    AcIdSpec(prefix, i, j);
    AcIdSpec(prefix, j, i);
  }

  // ---------------------------------------------------------------------------
  // max_tasks_from_score and _select_range
  // ---------------------------------------------------------------------------

  /** `max_tasks_from_score(score)`. */
  function MaxTasksFromScore(score: int): (k: int)
    ensures k in {2, 3, 5}
  {
    if score <= 40 then 5 else if score <= 70 then 3 else 2
  }

  /** A better score never allows more tasks per AC, and each tier is what the thresholds say. */
  lemma MaxTasksFromScoreTiers(a: int, b: int)
    ensures a <= b ==> MaxTasksFromScore(a) >= MaxTasksFromScore(b)
    ensures MaxTasksFromScore(a) == 5 <==> a <= 40
    ensures MaxTasksFromScore(a) == 2 <==> a > 70
  {
  }

  /** `_select_range(all_acs, start=start, limit=limit)`. */
  function SelectRange(all: seq<string>, start: int, limit: int): (r: Result<seq<string>>)
    ensures r.Err? <==> Max(1, start) > |all|
    ensures r.Ok? ==>
      var s0 := Max(1, start) - 1;
      && 0 < |r.value| <= |all| - s0
      && r.value == all[s0..s0 + |r.value|]
      && |r.value| == (if limit > 0 then Min(limit, |all| - s0) else |all| - s0)
  {
    var s := Max(1, start);
    var s0 := s - 1;
    if s0 >= |all| then Err("--start is out of range. start=" + IntToString(s) + " but total_acs=" + IntToString(|all|))
    else
      var e0 := if limit > 0 then Min(|all|, s0 + limit) else |all|;
      var selected := all[s0..e0];
      if |selected| == 0 then Err("No ACs selected. Check --start/--limit range.") else Ok(selected)
  }

  /** Only the range error can happen: a start inside the list always selects something. */
  lemma SelectRangeErrors(all: seq<string>, start: int, limit: int)
    ensures SelectRange(all, start, limit).Err? ==>
      SelectRange(all, start, limit).error == "--start is out of range. start=" + IntToString(Max(1, start)) + " but total_acs=" + IntToString(|all|)
  {
  }

  // ---------------------------------------------------------------------------
  // _make_failsafe_output
  // ---------------------------------------------------------------------------

  const FAILSAFE_GROUP_ID := "G00"
  const FAILSAFE_REASON := "failsafe_taskgen_used"

  /** The single group of the failsafe output, holding every AC id. */
  function FailsafeGroup(m: AcMap): Group {
    Group(FAILSAFE_GROUP_ID, Keys(m), "Failsafe: AC-to-Task",
          "Fallback mode: convert each AC into one task without LLM task generation.", ["failsafe"])
  }

  /** The `grouping` of an output: the failsafe one (with `fallback`, the reason and the
      tuned policy in its meta) or the one `cluster_acs` returned. */
  datatype RunGrouping =
    | FailsafeGrouping(group: Group, policyUsed: TunedPolicy)
    | ClusterGrouping(clustered: Clustered)

  /** One entry of `group_results`. */
  datatype GroupResult =
    | FailsafeResult(groupId: string, tasks: seq<Obj>)
    | TaskgenResult(out: GroupTasks)
  {
    /** `len(gr.get("tasks", []))` when it is a list, otherwise nothing. */
    function TaskCount(): nat {
      match this
      case FailsafeResult(_, ts) => |ts|
      case TaskgenResult(Skipped(_, _)) => 0
      case TaskgenResult(g) => if g.tasks.JArr? then |g.tasks.items| else 0
    }
  }

  /** The counters of the output `meta` (the timestamp, the model name and the echoed
      settings are left out). */
  datatype RunMeta = RunMeta(acCountSelected: nat, groupCount: nat, totalTasks: nat, fallback: bool, fallbackReason: string)

  datatype RunOutput = RunOutput(story: Story, acMap: AcMap, grouping: RunGrouping, groupResults: seq<GroupResult>, meta: RunMeta)

  /** `_make_failsafe_output(story=story, ac_map=m, tuned_policy=tuned)`. */
  function FailsafeOutput(story: Story, m: AcMap, tuned: TunedPolicy): RunOutput {
    var tasks := AcMapToMinTasks(m);
    RunOutput(story, m, FailsafeGrouping(FailsafeGroup(m), tuned), [FailsafeResult(FAILSAFE_GROUP_ID, tasks)],
              RunMeta(|m|, 1, |tasks|, true, FAILSAFE_REASON))
  }

  /** The failsafe output has one group `G00` holding every AC id, one task per AC covering
      it and no other, and reports a fallback with one group and `len(ac_map)` tasks. */
  lemma FailsafeOutputSpec(story: Story, m: AcMap, tuned: TunedPolicy, a: string)
    ensures var o := FailsafeOutput(story, m, tuned);
      && o.grouping.group.groupId == FAILSAFE_GROUP_ID && o.grouping.group.acIds == Keys(m)
      && o.meta.fallback && o.meta.fallbackReason == FAILSAFE_REASON
      && o.meta.groupCount == 1 && o.meta.totalTasks == |m| && o.meta.acCountSelected == |m|
      && |o.groupResults| == 1
      && ((exists i :: 0 <= i < |m| && TaskCovers(JObj(o.groupResults[0].tasks[i]), a)) <==> HasKey(m, a))
  {
    assert FailsafeOutput(story, m, tuned).groupResults[0].tasks == AcMapToMinTasks(m);
    AcMapToMinTasksCover(m, a);
  }

  // ---------------------------------------------------------------------------
  // main: routing and the per-group loop
  // ---------------------------------------------------------------------------

  /** The command-line settings `main` uses (input and output paths and the model name are
      left out). */
  datatype Args = Args(score: int, start: int, limit: int,
                       maxAcPerGroup: int, targetGroupsMin: int, targetGroupsMax: int, maxGroups: int,
                       minGroupSize: int, maxAcPerTask: int, maxRepairs: int)

  /** The argparse defaults. */
  const DEFAULT_ARGS := Args(50, 1, 0, 10, 8, 12, 15, 3, 2, 2)

  /** `main` goes to the failsafe output when `cluster_acs` raised, returned no groups, or
      marked its result as a fallback. */
  predicate UseFailsafe(c: Result<Clustered>) {
    c.Err? || |c.value.groups| == 0 || c.value.info.fallback
  }

  /** The oracle of the `i`-th group's task generation; groups without one see only failed
      calls. */
  function OracleAt(oracles: seq<seq<Reply<Obj>>>, i: nat): seq<Reply<Obj>> {
    if i < |oracles| then oracles[i] else []
  }

  /** `generate_tasks_for_group` on every group, in order. */
  function GroupOutputs(groups: seq<Group>, args: Args, maxTasksPerAc: int, oracles: seq<seq<Reply<Obj>>>): (r: seq<Result<GroupTasks>>)
    ensures |r| == |groups|
  {
    seq(|groups|, i requires 0 <= i < |groups| =>
      GenerateTasksForGroup(GroupToJson(groups[i]).fields, args.maxAcPerTask, maxTasksPerAc, args.maxRepairs, OracleAt(oracles, i)))
  }

  /** The loop over the groups: the first group whose generation raises ends the run with
      its error; otherwise one result per group, in order. */
  function Collect(outs: seq<Result<GroupTasks>>): (r: Result<seq<GroupResult>>)
    ensures r.Ok? <==> forall k :: 0 <= k < |outs| ==> outs[k].Ok?
    ensures r.Ok? ==> |r.value| == |outs| && forall k :: 0 <= k < |outs| ==> r.value[k] == TaskgenResult(outs[k].value)
    ensures r.Err? ==> exists k :: 0 <= k < |outs| && outs[k].Err? && r.error == outs[k].error && forall j :: 0 <= j < k ==> outs[j].Ok?
    decreases |outs|
  {
    if |outs| == 0 then Ok([])
    else if outs[0].Err? then Err(outs[0].error)
    else
      var rest := Collect(outs[1..]);
      assert forall k :: 1 <= k < |outs| ==> outs[k] == outs[1..][k - 1];
      if rest.Err? then
        var k :| 0 <= k < |outs[1..]| && outs[1..][k].Err? && rest.error == outs[1..][k].error
                 && forall j :: 0 <= j < k ==> outs[1..][j].Ok?;
        assert outs[k + 1].Err? && forall j :: 0 <= j < k + 1 ==> outs[j].Ok?;
        Err(rest.error)
      else Ok([TaskgenResult(outs[0].value)] + rest.value)
  }

  /** `total_tasks`: the summed task counts. */
  function TotalTasks(rs: seq<GroupResult>): nat {
    if |rs| == 0 then 0 else rs[0].TaskCount() + TotalTasks(rs[1..])
  }

  /** The total counts each result once: splitting the results splits the total. */
  lemma {:induction false} TotalTasksAppend(a: seq<GroupResult>, b: seq<GroupResult>)
    ensures TotalTasks(a + b) == TotalTasks(a) + TotalTasks(b)
    decreases |a|
  {
    if |a| == 0 {
      assert a + b == b;
    } else {
      assert (a + b)[1..] == a[1..] + b;
      TotalTasksAppend(a[1..], b);
    }
  }

  /** The task generation `main` runs over a list of groups: `generate_tasks_for_group` on
      each, with `max_tasks_from_score(score)` tasks per AC. */
  function TaskgenFor(args: Args, oracles: seq<seq<Reply<Obj>>>): seq<Group> -> seq<Result<GroupTasks>> {
    (gs: seq<Group>) => GroupOutputs(gs, args, MaxTasksFromScore(args.score), oracles)
  }

  lemma TaskgenForLength(args: Args, oracles: seq<seq<Reply<Obj>>>, gs: seq<Group>)
    ensures |TaskgenFor(args, oracles)(gs)| == |gs|
  {
  }

  /** `main` after the grouping call: route to the failsafe output or run `taskgen` over the
      groups. */
  function Route(story: Story, m: AcMap, tuned: TunedPolicy, c: Result<Clustered>,
                 taskgen: seq<Group> -> seq<Result<GroupTasks>>): Result<RunOutput>
  {
    if UseFailsafe(c) then Ok(FailsafeOutput(story, m, tuned))
    else
      var groups := c.value.groups;
      var results :- Collect(taskgen(groups));
      Ok(RunOutput(story, m, ClusterGrouping(c.value), results,
                   RunMeta(|m|, |groups|, TotalTasks(results), false, "")))
  }

  /** The failsafe output is produced whenever the grouping raised, gave no groups, or was
      itself a fallback. */
  lemma RouteFailsafe(story: Story, m: AcMap, tuned: TunedPolicy, c: Result<Clustered>,
                      taskgen: seq<Group> -> seq<Result<GroupTasks>>)
    requires UseFailsafe(c)
    ensures Route(story, m, tuned, c, taskgen) == Ok(FailsafeOutput(story, m, tuned))
  {
  }

  /** Otherwise the output keeps the grouping, reports no fallback, has one result per
      generated group in order and the summed task count; or it is the error of the first
      group whose generation raised. */
  lemma RouteGenerated(story: Story, m: AcMap, tuned: TunedPolicy, c: Result<Clustered>,
                       taskgen: seq<Group> -> seq<Result<GroupTasks>>)
    requires !UseFailsafe(c)
    ensures var r := Route(story, m, tuned, c, taskgen);
      var outs := taskgen(c.value.groups);
      && (r.Ok? ==>
            && !r.value.meta.fallback && r.value.meta.fallbackReason == ""
            && r.value.grouping == ClusterGrouping(c.value)
            && r.value.meta.groupCount == |c.value.groups|
            && |r.value.groupResults| == |outs|
            && (forall k :: 0 <= k < |outs| ==> r.value.groupResults[k] == TaskgenResult(outs[k].value))
            && r.value.meta.totalTasks == TotalTasks(r.value.groupResults))
      && (r.Err? <==> exists k :: 0 <= k < |outs| && outs[k].Err?)
  {
  }

  /** Whatever the run did, a failsafe output is flagged as a fallback and a generated one is
      not. */
  lemma RouteFallbackFlag(story: Story, m: AcMap, tuned: TunedPolicy, c: Result<Clustered>,
                          taskgen: seq<Group> -> seq<Result<GroupTasks>>)
    requires Route(story, m, tuned, c, taskgen).Ok?
    ensures Route(story, m, tuned, c, taskgen).value.meta.fallback <==> UseFailsafe(c)
  {
  }

  /** The request `main` hands to `cluster_acs`: the tuned policy and the repair budget. */
  function RequestFor(tuned: TunedPolicy, args: Args): Request {
    Request(tuned.maxAcPerGroup, tuned.targetMin, tuned.targetMax, tuned.maxGroups, tuned.minGroupSize, args.maxRepairs)
  }

  /** The tuned policy of a run over `n` ACs. */
  function TunedFor(n: nat, args: Args): TunedPolicy {
    AutoTune(n, args.maxAcPerGroup, args.targetGroupsMin, args.targetGroupsMax, args.maxGroups, args.minGroupSize)
  }

  /** `main` from the parsed input object on, with the grouping call as a parameter. */
  function MainWith(input: Obj, args: Args, cluster: (AcMap, Request) -> Result<Clustered>,
                    taskgen: seq<Group> -> seq<Result<GroupTasks>>): Result<RunOutput>
  {
    var (story, all) := ExtractStoryAndAcs(input);
    if |all| == 0 then Err("No acceptance_criteria found in input.")
    else
      var selected :- SelectRange(all, args.start, args.limit);
      var m := BuildAcMap(selected, "AC");
      var tuned := TunedFor(|m|, args);
      Route(story, m, tuned, cluster(m, RequestFor(tuned, args)), taskgen)
  }

  /** `cluster_acs` over the grouping oracle. */
  function ClusterWith(clusterOracle: seq<Reply<Json>>): (AcMap, Request) -> Result<Clustered> {
    (m: AcMap, req: Request) => ClusterAcs(m, req, clusterOracle)
  }

  /** `main`. */
  function Main(input: Obj, args: Args, clusterOracle: seq<Reply<Json>>, oracles: seq<seq<Reply<Obj>>>): Result<RunOutput> {
    MainWith(input, args, ClusterWith(clusterOracle), TaskgenFor(args, oracles))
  }

  /** `main` fails before any call when there is no AC or the start is past the end;
      otherwise it numbers the selected ACs, tunes the policy, groups and routes. */
  lemma MainSteps(input: Obj, args: Args, cluster: (AcMap, Request) -> Result<Clustered>,
                  taskgen: seq<Group> -> seq<Result<GroupTasks>>)
    ensures var (story, all) := ExtractStoryAndAcs(input);
      var r := MainWith(input, args, cluster, taskgen);
      && (|all| == 0 ==> r == Err("No acceptance_criteria found in input."))
      && (|all| > 0 && Max(1, args.start) > |all| ==> r.Err?)
      && (|all| > 0 && Max(1, args.start) <= |all| ==>
            var selected := SelectRange(all, args.start, args.limit).value;
            var m := BuildAcMap(selected, "AC");
            var tuned := TunedFor(|m|, args);
            r == Route(story, m, tuned, cluster(m, RequestFor(tuned, args)), taskgen))
  {
  }

  /** With the tuned policy the grouping call never raises, so `main` takes the failsafe
      route exactly when the grouping came back empty or as a fallback; and the groups it
      hands to task generation assign every selected AC exactly once. */
  lemma MainRouting(m: AcMap, args: Args, clusterOracle: seq<Reply<Json>>)
    ensures var c := ClusterWith(clusterOracle)(m, RequestFor(TunedFor(|m|, args), args));
      && c.Ok?
      && (UseFailsafe(c) <==> |c.value.groups| == 0 || c.value.info.fallback)
      && multiset(AllAcIds(c.value.groups)) == multiset(Keys(m))
  {
    var tuned := TunedFor(|m|, args);
    ClusterCoverage(m, RequestFor(tuned, args), clusterOracle, false);
  }
}
