/**
 * `generate_tasks_for_group`: ask the external text-synthesis service for the tasks of
 * one AC group, normalise them, check them with `validate_tasks` and the group coverage
 * check, and ask for repairs a bounded number of times. The service is an oracle: the
 * `k`-th call (counting from 0) answers `ReplyAt(oracle, k)`; a failed call raises out of
 * the function, which is an `Err` here.
 */
module GroupTaskgen {
  import opened Wrappers
  import opened Strings
  import opened Seqs
  import opened PyJson
  import opened GroupingSchema
  import opened TaskNormalize
  import opened TaskValidate
  import opened Policy
  import GroupingValidate

  // ---------------------------------------------------------------------------
  // _validate_group_coverage
  // ---------------------------------------------------------------------------

  /** One message of the coverage check; per-task issues carry the task's 1-based position. */
  datatype CoverageIssue =
    | TasksNotNonEmptyList
    | TaskNotObject(pos: nat)
    | IdsNotNonEmptyList(pos: nat)
    | TooManyIds(pos: nat, count: nat, limit: int)
    | UnknownId(pos: nat, id: Json)
    | CoverageMissing(missing: seq<string>)
  {
    /** The task an issue is about, and -1 for the two list-level issues. */
    function Pos(): int {
      if TasksNotNonEmptyList? || CoverageMissing? then -1 else pos
    }
  }

  /** The `ac_ids` entries of a task the check looks at: those of a dictionary task whose
      `ac_ids` is a list (an empty list, a missing key or another value gives none). */
  function TaskIds(t: Json): seq<Json> {
    if t.JObj? && Get(t.fields, "ac_ids", JNull).JArr? then Get(t.fields, "ac_ids", JNull).items else []
  }

  /** `a in group_set` for an entry that can be hashed: only a string can equal an id. */
  predicate InGroup(a: Json, group: seq<string>) {
    a.JStr? && a.s in group
  }

  /** Python raises `TypeError` on `a not in group_set` for a list or a dictionary. */
  predicate Hashable(a: Json) {
    !a.JArr? && !a.JObj?
  }

  /** One `unknown id` issue per entry outside the group, in list order. */
  function UnknownIssues(pos: nat, ids: seq<Json>, group: seq<string>): seq<CoverageIssue>
    decreases |ids|
  {
    if |ids| == 0 then []
    else (if InGroup(ids[0], group) then [] else [UnknownId(pos, ids[0])]) + UnknownIssues(pos, ids[1..], group)
  }

  /** The issues of the task at 1-based position `pos`. */
  function TaskCoverageIssues(pos: nat, t: Json, group: seq<string>, maxPerTask: int): seq<CoverageIssue> {
    if !t.JObj? then [TaskNotObject(pos)]
    else
      var ids := TaskIds(t);
      if |ids| == 0 then [IdsNotNonEmptyList(pos)]
      else (if |ids| > maxPerTask then [TooManyIds(pos, |ids|, maxPerTask)] else []) + UnknownIssues(pos, ids, group)
  }

  /** The ids of the group the tasks name, in the order the loop appends them to `seen`. */
  function Seen(tasks: seq<Json>, group: seq<string>): seq<string>
    decreases |tasks|
  {
    if |tasks| == 0 then [] else KnownIds(TaskIds(tasks[0]), group) + Seen(tasks[1..], group)
  }

  function KnownIds(ids: seq<Json>, group: seq<string>): seq<string>
    decreases |ids|
  {
    if |ids| == 0 then []
    else (if InGroup(ids[0], group) then [ids[0].s] else []) + KnownIds(ids[1..], group)
  }

  /** The group's ids no task names, in group order. */
  function Missing(group: seq<string>, seen: seq<string>): seq<string> {
    Filter(group, (a: string) => a !in seen)
  }

  /** No task has an entry the membership test would raise on. */
  predicate AllHashable(tasks: seq<Json>) {
    forall i, j :: 0 <= i < |tasks| && 0 <= j < |TaskIds(tasks[i])| ==> Hashable(TaskIds(tasks[i])[j])
  }

  function CoverageCheck(group: seq<string>, maxPerTask: int): (nat, Json) -> seq<CoverageIssue> {
    (p: nat, x: Json) => TaskCoverageIssues(p, x, group, maxPerTask)
  }

  /** `_validate_group_coverage(tasks_obj, group_ac_ids=group, max_ac_per_task=maxPerTask)`. */
  function Coverage(tasksObj: Obj, group: seq<string>, maxPerTask: int): (r: Result<Verdict<CoverageIssue>>)
    ensures r.Ok? ==> (r.value.ok <==> |r.value.errors| == 0)
  {
    var tasks := Get(tasksObj, "tasks", JArr([]));
    if !NonEmptyList(tasks) then Ok(Verdict(false, [TasksNotNonEmptyList]))
    else if !AllHashable(tasks.items) then Err("TypeError: unhashable type")
    else
      var missing := Missing(group, Seen(tasks.items, group));
      var errs := IssuesFrom(tasks.items, 1, CoverageCheck(group, maxPerTask))
                  + (if |missing| > 0 then [CoverageMissing(missing)] else []);
      Ok(Verdict(|errs| == 0, errs))
  }

  /** The ids of a task, as a list of strings when they all are strings. */
  predicate TaskCovers(t: Json, a: string) {
    JStr(a) in TaskIds(t)
  }

  /** What a covering task list is, stated directly: a non-empty list of dictionaries, each
      with a non-empty `ac_ids` list of at most `maxPerTask` ids of the group, and every id
      of the group named by some task. */
  predicate CoverageOk(tasksObj: Obj, group: seq<string>, maxPerTask: int) {
    var tasks := Get(tasksObj, "tasks", JArr([]));
    && NonEmptyList(tasks)
    && (forall i :: 0 <= i < |tasks.items| ==> TaskIdsOk(tasks.items[i], group, maxPerTask))
    && (forall a :: a in group ==> exists i :: 0 <= i < |tasks.items| && TaskCovers(tasks.items[i], a))
  }

  predicate TaskIdsOk(t: Json, group: seq<string>, maxPerTask: int) {
    && t.JObj?
    && 0 < |TaskIds(t)| <= maxPerTask
    && forall j :: 0 <= j < |TaskIds(t)| ==> InGroup(TaskIds(t)[j], group)
  }

  /** An id is unknown exactly when it is outside the group. */
  lemma {:induction false} UnknownIssuesSpec(pos: nat, ids: seq<Json>, group: seq<string>)
    ensures |UnknownIssues(pos, ids, group)| == 0 <==> forall j :: 0 <= j < |ids| ==> InGroup(ids[j], group)
    ensures forall e :: e in UnknownIssues(pos, ids, group) ==> e.UnknownId? && e.pos == pos && e.id in ids && !InGroup(e.id, group)
    decreases |ids|
  {
    if |ids| > 0 {
      UnknownIssuesSpec(pos, ids[1..], group);
      assert forall j :: 1 <= j < |ids| ==> ids[1..][j - 1] == ids[j];
    }
  }

  /** A task raises no coverage issue of its own exactly when its ids pass. */
  lemma TaskCoverageIssuesEmptyIff(pos: nat, t: Json, group: seq<string>, maxPerTask: int)
    ensures |TaskCoverageIssues(pos, t, group, maxPerTask)| == 0 <==> TaskIdsOk(t, group, maxPerTask)
  {
    if t.JObj? {
      UnknownIssuesSpec(pos, TaskIds(t), group);
    }
  }

  /** An id is known through a list exactly when it is a group id the list holds as a string. */
  lemma {:induction false} KnownIdsSpec(ids: seq<Json>, group: seq<string>, a: string)
    ensures a in KnownIds(ids, group) <==> a in group && JStr(a) in ids
    decreases |ids|
  {
    if |ids| > 0 {
      KnownIdsSpec(ids[1..], group, a);
      assert ids == [ids[0]] + ids[1..];
    }
  }

  /** `seen` holds exactly the group ids some task names. */
  lemma {:induction false} SeenSpec(tasks: seq<Json>, group: seq<string>, a: string)
    ensures a in Seen(tasks, group) <==> a in group && exists i :: 0 <= i < |tasks| && TaskCovers(tasks[i], a)
    decreases |tasks|
  {
    if |tasks| > 0 {
      SeenSpec(tasks[1..], group, a);
      KnownIdsSpec(TaskIds(tasks[0]), group, a);
      if exists i :: 1 <= i < |tasks| && TaskCovers(tasks[i], a) {
        var i :| 1 <= i < |tasks| && TaskCovers(tasks[i], a);
        assert TaskCovers(tasks[1..][i - 1], a);
      }
      if exists i :: 0 <= i < |tasks[1..]| && TaskCovers(tasks[1..][i], a) {
        var i :| 0 <= i < |tasks[1..]| && TaskCovers(tasks[1..][i], a);
        assert TaskCovers(tasks[i + 1], a);
      }
    }
  }

  /** The missing list holds exactly the group ids no task names. */
  lemma MissingSpec(tasks: seq<Json>, group: seq<string>)
    ensures forall a :: a in Missing(group, Seen(tasks, group)) <==>
      a in group && !exists i :: 0 <= i < |tasks| && TaskCovers(tasks[i], a)
  {
    forall a ensures a in Missing(group, Seen(tasks, group)) <==>
      a in group && !exists i :: 0 <= i < |tasks| && TaskCovers(tasks[i], a)
    {
      SeenSpec(tasks, group, a);
    }
  }

  /** The check raises only on an unhashable id, and when it answers, it is ok exactly when
      the tasks cover the group. */
  lemma CoverageOkIff(tasksObj: Obj, group: seq<string>, maxPerTask: int)
    ensures var r := Coverage(tasksObj, group, maxPerTask);
      var tasks := Get(tasksObj, "tasks", JArr([]));
      && (r.Err? <==> NonEmptyList(tasks) && !AllHashable(tasks.items))
      && (r.Ok? ==> (r.value.ok <==> CoverageOk(tasksObj, group, maxPerTask)))
  {
    var tasks := Get(tasksObj, "tasks", JArr([]));
    if NonEmptyList(tasks) && AllHashable(tasks.items) {
      IssuesEmptyIff(tasks.items, group, maxPerTask);
      MissingEmptyIff(tasks.items, group);
    }
  }

  /** The tasks raise no issue of their own exactly when each passes on its own. */
  lemma IssuesEmptyIff(items: seq<Json>, group: seq<string>, maxPerTask: int)
    ensures |IssuesFrom(items, 1, CoverageCheck(group, maxPerTask))| == 0
            <==> forall i :: 0 <= i < |items| ==> TaskIdsOk(items[i], group, maxPerTask)
  {
    IssuesFromEmptyIff(items, 1, CoverageCheck(group, maxPerTask));
    EachTaskEmptyIff(items, group, maxPerTask);
  }

  /** Each task, checked at its position, raises no issue exactly when it passes on its own. */
  lemma EachTaskEmptyIff(items: seq<Json>, group: seq<string>, maxPerTask: int)
    ensures forall i :: 0 <= i < |items| ==>
      (|CoverageCheck(group, maxPerTask)(1 + i, items[i])| == 0 <==> TaskIdsOk(items[i], group, maxPerTask))
  {
    forall i | 0 <= i < |items|
      ensures |CoverageCheck(group, maxPerTask)(1 + i, items[i])| == 0 <==> TaskIdsOk(items[i], group, maxPerTask)
    {
      assert CoverageCheck(group, maxPerTask)(1 + i, items[i]) == TaskCoverageIssues(1 + i, items[i], group, maxPerTask);
      TaskCoverageIssuesEmptyIff(1 + i, items[i], group, maxPerTask);
    }
  }

  /** Nothing is missing exactly when every group id is named by some task. */
  lemma MissingEmptyIff(items: seq<Json>, group: seq<string>)
    ensures |Missing(group, Seen(items, group))| == 0
            <==> forall a :: a in group ==> exists i :: 0 <= i < |items| && TaskCovers(items[i], a)
  {
    MissingSpec(items, group);
    var missing := Missing(group, Seen(items, group));
    if |missing| > 0 {
      assert missing[0] in missing;
    }
  }

  /** The normalised tasks carry lists of strings as ids, so the check never raises on them. */
  lemma NormalizedCoverageAnswers(tasks: Json, maxTasks: int, group: seq<string>, maxPerTask: int)
    ensures Coverage(map["tasks" := TasksJson(NormalizeGroupTasks(tasks, maxTasks))], group, maxPerTask).Ok?
  {
    var ts := NormalizeGroupTasks(tasks, maxTasks);
    var v := TasksJson(ts);
    GroupTasksShape(tasks, maxTasks);
    forall i, j | 0 <= i < |v.items| && 0 <= j < |TaskIds(v.items[i])| ensures Hashable(TaskIds(v.items[i])[j]) {
      assert v.items[i] == JObj(ts[i]);
      CleanStrListItems(ts[i]["ac_ids"]);
    }
  }

  /** The message the coverage check prints for an issue (the id list as its `repr`). */
  function CoverageIssueText(e: CoverageIssue): string {
    match e
    case TasksNotNonEmptyList => "tasks must be a non-empty list"
    case TaskNotObject(p) => "tasks[" + IntToString(p) + "] must be object"
    case IdsNotNonEmptyList(p) => "tasks[" + IntToString(p) + "].ac_ids must be non-empty list"
    case TooManyIds(p, n, m) =>
      "tasks[" + IntToString(p) + "].ac_ids exceeds max_ac_per_task (" + IntToString(n) + " > " + IntToString(m) + ")"
    case UnknownId(p, a) => "tasks[" + IntToString(p) + "].ac_ids contains unknown id: " + PyStr(a)
    case CoverageMissing(m) => "coverage missing ACs: " + GroupingValidate.ReprList(m)
  }

  // ---------------------------------------------------------------------------
  // generate_tasks_for_group
  // ---------------------------------------------------------------------------

  /** `min_tasks = max(1, n)`: at least one task per id of the group. */
  function MinTasks(n: nat): (m: int)
    ensures m >= 1 && m >= n
  {
    Max(1, n)
  }

  /** `max_tasks = max(min_tasks, min(20, n * max_tasks_per_ac))`. */
  function MaxTasks(n: nat, maxTasksPerAc: int): (m: int)
    ensures m >= MinTasks(n)
    ensures m == MinTasks(n) || m == Min(20, n * maxTasksPerAc)
    ensures m > MinTasks(n) ==> m <= 20
  {
    Max(MinTasks(n), Min(20, n * maxTasksPerAc))
  }

  /** `str(group.get(key, "") or "").strip()`. */
  function GroupText(group: Obj, key: string): (s: string)
    ensures Stripped(s)
  {
    var v := Get(group, key, JStr(""));
    StripStripped(PyStr(if Truthy(v) then v else JStr("")));
    Strip(PyStr(if Truthy(v) then v else JStr("")))
  }

  /** The group id, `"G??"` when it is blank. */
  function GroupIdOf(group: Obj): (s: string)
    ensures s != "" && Stripped(s)
    ensures GroupText(group, "group_id") != "" ==> s == GroupText(group, "group_id")
  {
    var s := GroupText(group, "group_id");
    if s == "" then "G??" else s
  }

  /** One issue of a round: from `validate_tasks`, then from the coverage check. */
  datatype GroupIssue = FromTasks(taskIssue: TaskIssue) | FromCoverage(coverageIssue: CoverageIssue)
  {
    /** The string the issue stands for in `validate.issues`. */
    function Text(): string {
      match this
      case FromTasks(t) => TaskIssueText(t)
      case FromCoverage(c) => CoverageIssueText(c)
    }
  }

  /** The normalised tasks of one reply, as the `{"tasks": [...]}` object they are checked as. */
  function TasksObjOf(raw: Obj, maxTasks: int): (o: Obj)
    ensures "tasks" in o && o["tasks"].JArr?
  {
    map["tasks" := TasksJson(NormalizeGroupTasks(Get(raw, "tasks", JArr([])), maxTasks))]
  }

  /** The checks of one round: `validate_tasks` (standing in for the missing
      `validate_tasks_obj`, with `max_tasks_per_ac := max_tasks`) and the coverage check. */
  datatype Round = Round(ok: bool, issues: seq<GroupIssue>)

  function CheckRound(tasksObj: Obj, maxTasks: int, group: seq<string>, maxPerTask: int): (r: Result<Round>)
    ensures r.Ok? ==> (r.value.ok <==> |r.value.issues| == 0)
  {
    var v1 := ValidateTasksObj(tasksObj, maxTasks);
    var v2 :- Coverage(tasksObj, group, maxPerTask);
    Ok(Round(v1.ok && v2.ok,
             seq(|v1.errors|, i requires 0 <= i < |v1.errors| => FromTasks(v1.errors[i]))
             + seq(|v2.errors|, i requires 0 <= i < |v2.errors| => FromCoverage(v2.errors[i]))))
  }

  /** A round passes exactly when the tasks are valid and cover the group. */
  lemma CheckRoundOkIff(tasksObj: Obj, maxTasks: int, group: seq<string>, maxPerTask: int)
    requires CheckRound(tasksObj, maxTasks, group, maxPerTask).Ok?
    ensures CheckRound(tasksObj, maxTasks, group, maxPerTask).value.ok <==>
      TasksOk(tasksObj, maxTasks) && CoverageOk(tasksObj, group, maxPerTask)
  {
    ValidateTasksOkIff(tasksObj, maxTasks);
    CoverageOkIff(tasksObj, group, maxPerTask);
  }

  /** A round on normalised tasks always answers. */
  lemma CheckRoundAnswers(raw: Obj, maxTasks: int, group: seq<string>, maxPerTask: int)
    ensures CheckRound(TasksObjOf(raw, maxTasks), maxTasks, group, maxPerTask).Ok?
  {
    NormalizedCoverageAnswers(Get(raw, "tasks", JArr([])), maxTasks, group, maxPerTask);
  }

  /** Where the repair loop stops: the last tasks, their verdict, the repairs made and the
      number of service calls so far. */
  datatype LoopOut = LoopOut(tasksObj: Obj, round: Round, repairs: nat, calls: nat)

  /** The round check of one group, as the loop applies it to each new task object. */
  function RoundCheck(maxTasks: int, group: seq<string>, maxPerTask: int): Obj -> Result<Round> {
    (o: Obj) => CheckRound(o, maxTasks, group, maxPerTask)
  }

  /** What a passing round promises of its tasks. */
  function RoundGood(maxTasks: int, group: seq<string>, maxPerTask: int): Obj -> bool {
    (o: Obj) => TasksOk(o, maxTasks) && CoverageOk(o, group, maxPerTask)
  }

  /** `while not ok and repairs < max_repairs`: each round calls the service once more and
      checks the normalised reply with `check`. */
  function RepairLoop(oracle: seq<Reply<Obj>>, maxTasks: int, check: Obj -> Result<Round>,
                      maxRepairs: int, tasksObj: Obj, round: Round, repairs: nat, calls: nat): (r: Result<LoopOut>)
    decreases Max(0, maxRepairs - repairs)
  {
    if round.ok || repairs >= maxRepairs then Ok(LoopOut(tasksObj, round, repairs, calls))
    else
      match ReplyAt(oracle, calls)
      case CallFailed(reason) => Err(reason)
      case Answer(raw) =>
        var next := TasksObjOf(raw, maxTasks);
        var rd :- check(next);
        RepairLoop(oracle, maxTasks, check, maxRepairs, next, rd, repairs + 1, calls + 1)
  }

  /** What one group produces. */
  datatype GroupTasks =
    /** `ac_ids` missing, not a list or empty: no call is made. */
    | Skipped(groupId: string, groupLabel: string)
    | Generated(groupId: string, groupLabel: string, acIds: seq<string>, pass: bool,
                issues: seq<GroupIssue>, repairsUsed: nat, tasks: Json, calls: nat)
  {
    /** The `error` field of the skipped output. */
    function Error(): Option<string> {
      if Skipped? then Some("group.ac_ids is empty") else None
    }
  }

  /** `generate_tasks_for_group(group=group, max_ac_per_task=maxPerTask,
      max_tasks_per_ac=maxTasksPerAc, max_repairs=maxRepairs)`. */
  function GenerateTasksForGroup(group: Obj, maxPerTask: int, maxTasksPerAc: int, maxRepairs: int,
                                 oracle: seq<Reply<Obj>>): Result<GroupTasks>
  {
    var gid := GroupIdOf(group);
    var gl := GroupText(group, "label");
    var raw := Get(group, "ac_ids", JArr([]));
    if !NonEmptyList(raw) then Ok(Skipped(gid, gl))
    else
      var ids := IdTexts(raw.items);
      var maxTasks := MaxTasks(|ids|, maxTasksPerAc);
      match ReplyAt(oracle, 0)
      case CallFailed(reason) => Err(reason)
      case Answer(first) =>
        var tasksObj := TasksObjOf(first, maxTasks);
        var rd :- CheckRound(tasksObj, maxTasks, ids, maxPerTask);
        var out :- RepairLoop(oracle, maxTasks, RoundCheck(maxTasks, ids, maxPerTask), maxRepairs, tasksObj, rd, 0, 1);
        Ok(Generated(gid, gl, ids, out.round.ok, out.round.issues, out.repairs, Get(out.tasksObj, "tasks", JArr([])), out.calls))
  }

  // ---------------------------------------------------------------------------
  // Properties of the loop
  // ---------------------------------------------------------------------------

  /** The round check answers on every normalised reply, and passes only tasks that are
      valid and cover the group. */
  lemma RoundCheckSpec(maxTasks: int, group: seq<string>, maxPerTask: int)
    ensures forall raw :: RoundCheck(maxTasks, group, maxPerTask)(TasksObjOf(raw, maxTasks)).Ok?
    ensures forall o :: RoundCheck(maxTasks, group, maxPerTask)(o).Ok? && RoundCheck(maxTasks, group, maxPerTask)(o).value.ok
                        ==> RoundGood(maxTasks, group, maxPerTask)(o)
  {
    forall raw ensures RoundCheck(maxTasks, group, maxPerTask)(TasksObjOf(raw, maxTasks)).Ok? {
      CheckRoundAnswers(raw, maxTasks, group, maxPerTask);
    }
    forall o | RoundCheck(maxTasks, group, maxPerTask)(o).Ok? && RoundCheck(maxTasks, group, maxPerTask)(o).value.ok
      ensures RoundGood(maxTasks, group, maxPerTask)(o)
    {
      CheckRoundOkIff(o, maxTasks, group, maxPerTask);
    }
  }

  /** The loop makes one call per repair, at most `max_repairs` repairs in all, and stops
      early only on a passing round. */
  predicate CountsOk(r: Result<LoopOut>, maxRepairs: int, repairs: nat, calls: nat) {
    r.Ok? ==>
      && r.value.repairs <= Max(0, maxRepairs)
      && r.value.calls == calls + (r.value.repairs - repairs)
      && (!r.value.round.ok ==> r.value.repairs == Max(repairs, maxRepairs))
  }

  lemma {:induction false} RepairLoopCounts(oracle: seq<Reply<Obj>>, maxTasks: int, check: Obj -> Result<Round>,
                                            maxRepairs: int, tasksObj: Obj, round: Round, repairs: nat, calls: nat)
    requires repairs <= Max(0, maxRepairs)
    ensures CountsOk(RepairLoop(oracle, maxTasks, check, maxRepairs, tasksObj, round, repairs, calls), maxRepairs, repairs, calls)
    decreases Max(0, maxRepairs - repairs)
  {
    if !(round.ok || repairs >= maxRepairs) && ReplyAt(oracle, calls).Answer? {
      var next := TasksObjOf(ReplyAt(oracle, calls).body, maxTasks);
      if check(next).Ok? {
        RepairLoopCounts(oracle, maxTasks, check, maxRepairs, next, check(next).value, repairs + 1, calls + 1);
      }
    }
  }

  /** Every round the loop ends on with a pass satisfies `good` when every pass of `check`
      does and the starting round does. */
  lemma {:induction false} RepairLoopGood(oracle: seq<Reply<Obj>>, maxTasks: int, check: Obj -> Result<Round>,
                                          good: Obj -> bool, maxRepairs: int, tasksObj: Obj, round: Round,
                                          repairs: nat, calls: nat)
    requires forall o :: check(o).Ok? && check(o).value.ok ==> good(o)
    requires round.ok ==> good(tasksObj)
    ensures var r := RepairLoop(oracle, maxTasks, check, maxRepairs, tasksObj, round, repairs, calls);
      r.Ok? && r.value.round.ok ==> good(r.value.tasksObj)
    decreases Max(0, maxRepairs - repairs)
  {
    if !(round.ok || repairs >= maxRepairs) && ReplyAt(oracle, calls).Answer? {
      var next := TasksObjOf(ReplyAt(oracle, calls).body, maxTasks);
      if check(next).Ok? {
        RepairLoopGood(oracle, maxTasks, check, good, maxRepairs, next, check(next).value, repairs + 1, calls + 1);
      }
    }
  }

  /** The loop fails only when a call it makes fails: with a check that answers on every
      normalised reply and a service that always answers, it always ends normally. */
  lemma {:induction false} RepairLoopAnswers(oracle: seq<Reply<Obj>>, maxTasks: int, check: Obj -> Result<Round>,
                                             maxRepairs: int, tasksObj: Obj, round: Round, repairs: nat, calls: nat)
    requires forall raw :: check(TasksObjOf(raw, maxTasks)).Ok?
    requires forall k :: calls <= k < calls + Max(0, maxRepairs - repairs) ==> ReplyAt(oracle, k).Answer?
    ensures RepairLoop(oracle, maxTasks, check, maxRepairs, tasksObj, round, repairs, calls).Ok?
    decreases Max(0, maxRepairs - repairs)
  {
    if !(round.ok || repairs >= maxRepairs) {
      var next := TasksObjOf(ReplyAt(oracle, calls).body, maxTasks);
      RepairLoopAnswers(oracle, maxTasks, check, maxRepairs, next, check(next).value, repairs + 1, calls + 1);
    }
  }

  /** Every task object the loop holds is the normalisation of some reply. */
  lemma {:induction false} RepairLoopTasks(oracle: seq<Reply<Obj>>, maxTasks: int, check: Obj -> Result<Round>,
                                           maxRepairs: int, tasksObj: Obj, round: Round, repairs: nat, calls: nat, raw: Obj)
    requires tasksObj == TasksObjOf(raw, maxTasks)
    ensures var r := RepairLoop(oracle, maxTasks, check, maxRepairs, tasksObj, round, repairs, calls);
      r.Ok? ==> exists raw' :: r.value.tasksObj == TasksObjOf(raw', maxTasks)
    decreases Max(0, maxRepairs - repairs)
  {
    var r := RepairLoop(oracle, maxTasks, check, maxRepairs, tasksObj, round, repairs, calls);
    if round.ok || repairs >= maxRepairs {
      assert r.value.tasksObj == TasksObjOf(raw, maxTasks);
    } else if ReplyAt(oracle, calls).Answer? {
      var next := TasksObjOf(ReplyAt(oracle, calls).body, maxTasks);
      if check(next).Ok? {
        RepairLoopTasks(oracle, maxTasks, check, maxRepairs, next, check(next).value, repairs + 1, calls + 1,
                        ReplyAt(oracle, calls).body);
      }
    }
  }

  /** A group without a non-empty `ac_ids` list is skipped before any call: the result does
      not depend on the service. */
  lemma SkippedWithoutCall(group: Obj, maxPerTask: int, maxTasksPerAc: int, maxRepairs: int, oracle: seq<Reply<Obj>>)
    requires !NonEmptyList(Get(group, "ac_ids", JArr([])))
    ensures GenerateTasksForGroup(group, maxPerTask, maxTasksPerAc, maxRepairs, oracle)
            == GenerateTasksForGroup(group, maxPerTask, maxTasksPerAc, maxRepairs, [])
    ensures GenerateTasksForGroup(group, maxPerTask, maxTasksPerAc, maxRepairs, oracle)
            == Ok(Skipped(GroupIdOf(group), GroupText(group, "label")))
  {
  }

  /** A generated result makes `1 + repairs_used` calls with `repairs_used <= max_repairs`,
      gives up only after every repair was spent, passes only with valid tasks that cover
      the group, and returns at most `max_tasks` tasks. */
  lemma GenerateFacts(group: Obj, maxPerTask: int, maxTasksPerAc: int, maxRepairs: int, oracle: seq<Reply<Obj>>)
    ensures var r := GenerateTasksForGroup(group, maxPerTask, maxTasksPerAc, maxRepairs, oracle);
      r.Ok? && r.value.Generated? ==>
        var g := r.value;
        var maxTasks := MaxTasks(|g.acIds|, maxTasksPerAc);
        && g.acIds == IdTexts(Get(group, "ac_ids", JArr([])).items)
        && g.repairsUsed <= Max(0, maxRepairs)
        && g.calls == 1 + g.repairsUsed
        && (!g.pass ==> g.repairsUsed == Max(0, maxRepairs))
        && (g.pass ==> TasksOk(map["tasks" := g.tasks], maxTasks) && CoverageOk(map["tasks" := g.tasks], g.acIds, maxPerTask))
        && g.tasks.JArr? && |g.tasks.items| <= maxTasks
  {
    var raw := Get(group, "ac_ids", JArr([]));
    if NonEmptyList(raw) && ReplyAt(oracle, 0).Answer? {
      var ids := IdTexts(raw.items);
      var maxTasks := MaxTasks(|ids|, maxTasksPerAc);
      var first := ReplyAt(oracle, 0).body;
      var tasksObj := TasksObjOf(first, maxTasks);
      var check, good := RoundCheck(maxTasks, ids, maxPerTask), RoundGood(maxTasks, ids, maxPerTask);
      RoundCheckSpec(maxTasks, ids, maxPerTask);
      assert check(tasksObj) == CheckRound(tasksObj, maxTasks, ids, maxPerTask);
      var rd := check(tasksObj).value;
      RepairLoopCounts(oracle, maxTasks, check, maxRepairs, tasksObj, rd, 0, 1);
      RepairLoopGood(oracle, maxTasks, check, good, maxRepairs, tasksObj, rd, 0, 1);
      var out := RepairLoop(oracle, maxTasks, check, maxRepairs, tasksObj, rd, 0, 1);
      if out.Ok? {
        RepairLoopTasks(oracle, maxTasks, check, maxRepairs, tasksObj, rd, 0, 1, first);
        assert out.value.tasksObj == map["tasks" := Get(out.value.tasksObj, "tasks", JArr([]))];
      }
    }
  }

  /** With a service that answers the first `1 + max_repairs` calls, a group with ids is
      always generated. */
  lemma GenerateAnswers(group: Obj, maxPerTask: int, maxTasksPerAc: int, maxRepairs: int, oracle: seq<Reply<Obj>>)
    requires NonEmptyList(Get(group, "ac_ids", JArr([])))
    requires forall k :: 0 <= k < 1 + Max(0, maxRepairs) ==> ReplyAt(oracle, k).Answer?
    ensures var r := GenerateTasksForGroup(group, maxPerTask, maxTasksPerAc, maxRepairs, oracle);
      r.Ok? && r.value.Generated?
  {
    var ids := IdTexts(Get(group, "ac_ids", JArr([])).items);
    var maxTasks := MaxTasks(|ids|, maxTasksPerAc);
    var first := ReplyAt(oracle, 0).body;
    var tasksObj := TasksObjOf(first, maxTasks);
    var check := RoundCheck(maxTasks, ids, maxPerTask);
    RoundCheckSpec(maxTasks, ids, maxPerTask);
    assert check(tasksObj).Ok?;
    RepairLoopAnswers(oracle, maxTasks, check, maxRepairs, tasksObj, check(tasksObj).value, 0, 1);
  }

  /** A failed first call raises out of the function. */
  lemma FirstCallFailure(group: Obj, maxPerTask: int, maxTasksPerAc: int, maxRepairs: int, oracle: seq<Reply<Obj>>)
    requires NonEmptyList(Get(group, "ac_ids", JArr([])))
    requires ReplyAt(oracle, 0).CallFailed?
    ensures GenerateTasksForGroup(group, maxPerTask, maxTasksPerAc, maxRepairs, oracle) == Err(ReplyAt(oracle, 0).reason)
  {
  }
}
