/**
 * The checks applied to generated tasks: `validate_tasks` over one `{"tasks": [...]}`
 * object and `validate_result` over the pipeline's `{"items": [...]}` output. Issues
 * are kept as a datatype (`TaskIssueText`/`ResultIssueText` give the message each one
 * prints), and every verdict is related to an independent statement of what a valid
 * task, task list and result are.
 */
module TaskValidate {
  import opened Wrappers
  import opened Strings
  import opened PyJson
  import opened GroupingSchema
  import opened TaskNormalize

  /** The keys every task must carry, in the order they are reported. */
  const REQUIRED_TASK_KEYS: seq<string> := [
    "title", "category", "subcategory", "status", "priority",
    "estimate_hours", "related_task_titles", "description"]

  /** One message of `validate_tasks`; per-task issues carry the task's 1-based position. */
  datatype TaskIssue =
    | NotNonEmptyList
    | TooMany(count: nat, limit: int)
    | NotObject(pos: nat)
    | MissingKey(pos: nat, key: string)
    | TitleEmpty(pos: nat)
    | DescriptionEmpty(pos: nat)
    | HoursNotNumber(pos: nat)
    | HoursOutOfRange(pos: nat, got: Json)
    | RelatedNotList(pos: nat)
  {
    /** The task an issue is about, and -1 for the two list-level issues. */
    function Pos(): int {
      if NotNonEmptyList? || TooMany? then -1 else pos
    }
  }

  /** One message of `validate_result`; per-item issues carry the item's 1-based position. */
  datatype ResultIssue =
    | ItemsNotList
    | ItemNotObject(item: nat)
    | AcIndexMissing(item: nat)
    | AcTextEmpty(item: nat)
    | InItem(item: nat, issue: TaskIssue)
  {
    function Pos(): int {
      if ItemsNotList? then -1 else item
    }
  }

  /** A verdict: `ok` and the issues found. */
  datatype Verdict<E> = Verdict(ok: bool, errors: seq<E>)

  // ---------------------------------------------------------------------------
  // Running a per-position check over a list
  // ---------------------------------------------------------------------------

  /** The issues of `f` at each element, positions counted from `pos`, concatenated. */
  function IssuesFrom<E>(items: seq<Json>, pos: nat, f: (nat, Json) -> seq<E>): seq<E>
    decreases |items|
  {
    if |items| == 0 then [] else f(pos, items[0]) + IssuesFrom(items[1..], pos + 1, f)
  }

  /** No issue overall exactly when no element has one. */
  lemma {:induction false} IssuesFromEmptyIff<E>(items: seq<Json>, pos: nat, f: (nat, Json) -> seq<E>)
    ensures |IssuesFrom(items, pos, f)| == 0 <==> forall i :: 0 <= i < |items| ==> |f(pos + i, items[i])| == 0
  {
    if |items| > 0 {
      IssuesFromEmptyIff(items[1..], pos + 1, f);
      assert forall i :: 1 <= i < |items| ==> items[1..][i - 1] == items[i];
    }
  }

  /** Every issue `f` reports for position `p` names `p`. */
  ghost predicate Local<E>(f: (nat, Json) -> seq<E>, at: E -> int) {
    forall p, x, e :: e in f(p, x) ==> at(e) == p
  }

  /** When every issue of `f` names the position it was raised at, an issue is reported
      for the list exactly when the element at its position reports it. */
  lemma {:induction false} IssuesFromLocal<E>(items: seq<Json>, pos: nat, f: (nat, Json) -> seq<E>, at: E -> int, e: E)
    requires Local(f, at)
    ensures e in IssuesFrom(items, pos, f) <==> pos <= at(e) < pos + |items| && e in f(at(e), items[at(e) - pos])
  {
    if |items| > 0 {
      IssuesFromLocal(items[1..], pos + 1, f, at, e);
      if pos + 1 <= at(e) < pos + |items| {
        assert items[1..][at(e) - (pos + 1)] == items[at(e) - pos];
      }
    }
  }

  /** `IssuesFromLocal` for an issue whose position is known to be `k`. */
  lemma IssuesFromLocalAt<E>(items: seq<Json>, pos: nat, f: (nat, Json) -> seq<E>, at: E -> int, e: E, k: nat)
    requires Local(f, at) && at(e) == k
    ensures e in IssuesFrom(items, pos, f) <==> pos <= k < pos + |items| && e in f(k, items[k - pos])
  {
    IssuesFromLocal(items, pos, f, at, e);
  }

  // ---------------------------------------------------------------------------
  // validate_tasks
  // ---------------------------------------------------------------------------

  /** One `tasks[k].<key> is missing` per required key the task lacks, in key order. */
  function MissingIssues(pos: nat, fields: Obj, keys: seq<string>): seq<TaskIssue>
    decreases |keys|
  {
    if |keys| == 0 then []
    else (if keys[0] in fields then [] else [MissingKey(pos, keys[0])]) + MissingIssues(pos, fields, keys[1..])
  }

  /** Exactly the absent keys are reported, each naming the task. */
  lemma {:induction false} MissingIssuesSpec(pos: nat, fields: Obj, keys: seq<string>)
    ensures forall e :: e in MissingIssues(pos, fields, keys) ==> e.MissingKey? && e.pos == pos
    ensures forall k :: MissingKey(pos, k) in MissingIssues(pos, fields, keys) <==> k in keys && k !in fields
  {
    if |keys| > 0 {
      MissingIssuesSpec(pos, fields, keys[1..]);
      assert forall k :: k in keys <==> k == keys[0] || k in keys[1..];
    }
  }

  /** Python's `not str(v).strip()`. Only a string can be all whitespace: `None`, the
      booleans, numbers, lists and dictionaries all print a visible first character
      (`EmptyTextIsStripEmpty`). */
  predicate EmptyText(v: Json) {
    v.JStr? && Blank(v.s)
  }

  /** `[e]` when `c` holds, else nothing: one `errors.append` under a test. */
  function When(c: bool, e: TaskIssue): seq<TaskIssue> {
    if c then [e] else []
  }

  /** The hour check: not a number, or a number outside 1..4. */
  function HoursIssues(pos: nat, eh: Json): seq<TaskIssue> {
    if !IsNumber(eh) then [HoursNotNumber(pos)]
    else When(!(1 <= NumberValue(eh) <= 4), HoursOutOfRange(pos, eh))
  }

  /** The checks after the key test, in the order their issues are appended: whether the
      title and the description are blank, the hours value and whether the related titles
      are a list. */
  function ValueIssues(pos: nat, titleBlank: bool, descBlank: bool, eh: Json, relList: bool): seq<TaskIssue> {
    When(titleBlank, TitleEmpty(pos))
    + When(descBlank, DescriptionEmpty(pos))
    + HoursIssues(pos, eh)
    + When(!relList, RelatedNotList(pos))
  }

  /** An issue is among the value issues exactly when its own condition holds. */
  lemma ValueIssuesMembers(pos: nat, titleBlank: bool, descBlank: bool, eh: Json, relList: bool)
    ensures forall e :: e in ValueIssues(pos, titleBlank, descBlank, eh, relList) <==>
      || (e == TitleEmpty(pos) && titleBlank)
      || (e == DescriptionEmpty(pos) && descBlank)
      || (e == HoursNotNumber(pos) && !IsNumber(eh))
      || (e == HoursOutOfRange(pos, eh) && IsNumber(eh) && !(1 <= NumberValue(eh) <= 4))
      || (e == RelatedNotList(pos) && !relList)
  {
  }

  /** Behind missing-key issues, the value issues add no missing-key issue. */
  lemma ChecksMissingKinds(pos: nat, m: seq<TaskIssue>, titleBlank: bool, descBlank: bool, eh: Json, relList: bool)
    requires forall e :: e in m ==> e.MissingKey? && e.pos == pos
    ensures var r := m + ValueIssues(pos, titleBlank, descBlank, eh, relList);
      forall k :: MissingKey(pos, k) in r <==> MissingKey(pos, k) in m
  {
    ValueIssuesMembers(pos, titleBlank, descBlank, eh, relList);
  }

  /** Behind missing-key issues, each value issue is raised exactly when its condition holds. */
  lemma ChecksValueKinds(pos: nat, m: seq<TaskIssue>, titleBlank: bool, descBlank: bool, eh: Json, relList: bool)
    requires forall e :: e in m ==> e.MissingKey? && e.pos == pos
    ensures var r := m + ValueIssues(pos, titleBlank, descBlank, eh, relList);
      && (TitleEmpty(pos) in r <==> titleBlank)
      && (DescriptionEmpty(pos) in r <==> descBlank)
      && (HoursNotNumber(pos) in r <==> !IsNumber(eh))
      && (HoursOutOfRange(pos, eh) in r <==> IsNumber(eh) && !(1 <= NumberValue(eh) <= 4))
      && (RelatedNotList(pos) in r <==> !relList)
  {
    ValueIssuesMembers(pos, titleBlank, descBlank, eh, relList);
  }

  /** No value issue is raised exactly when every value passes. */
  lemma ValueIssuesEmptyIff(pos: nat, titleBlank: bool, descBlank: bool, eh: Json, relList: bool)
    ensures |ValueIssues(pos, titleBlank, descBlank, eh, relList)| == 0 <==>
      !titleBlank && !descBlank && IsNumber(eh) && 1 <= NumberValue(eh) <= 4 && relList
  {
  }

  /** The key names the task checks read. */
  datatype TaskKeys = TaskKeys(required: seq<string>, title: string, desc: string, hours: string, related: string)

  const TASK_KEYS := TaskKeys(REQUIRED_TASK_KEYS, "title", "description", "estimate_hours", "related_task_titles")

  /** The issues of a dictionary task at 1-based position `pos`, reading the keys `ks`. */
  function FieldIssuesWith(pos: nat, f: Obj, ks: TaskKeys): seq<TaskIssue> {
    MissingIssues(pos, f, ks.required)
    + ValueIssues(pos, EmptyText(Get(f, ks.title, JStr(""))), EmptyText(Get(f, ks.desc, JStr(""))),
                  Get(f, ks.hours, JNull), Get(f, ks.related, JNull).JArr?)
  }

  /** What a valid dictionary task is, reading the keys `ks`: every required key present, a
      title and a description that are not blank, an hour estimate that is a number in 1..4
      and a list of related titles. */
  predicate FieldsOkWith(f: Obj, ks: TaskKeys) {
    && (forall k :: k in ks.required ==> k in f)
    && !EmptyText(Get(f, ks.title, JStr("")))
    && !EmptyText(Get(f, ks.desc, JStr("")))
    && IsNumber(Get(f, ks.hours, JNull))
    && 1 <= NumberValue(Get(f, ks.hours, JNull)) <= 4
    && Get(f, ks.related, JNull).JArr?
  }

  /** Every issue of a dictionary task names the task. */
  lemma FieldIssuesWithPos(pos: nat, f: Obj, ks: TaskKeys)
    ensures forall e :: e in FieldIssuesWith(pos, f, ks) ==> e.Pos() == pos
    ensures NotObject(pos) !in FieldIssuesWith(pos, f, ks)
  {
    MissingIssuesSpec(pos, f, ks.required);
    var title, desc := EmptyText(Get(f, ks.title, JStr(""))), EmptyText(Get(f, ks.desc, JStr("")));
    var eh, rel := Get(f, ks.hours, JNull), Get(f, ks.related, JNull).JArr?;
    ValueIssuesMembers(pos, title, desc, eh, rel);
  }

  /** Each kind of issue of a dictionary task is raised exactly when its condition holds. */
  lemma FieldIssuesWithKinds(pos: nat, f: Obj, ks: TaskKeys)
    ensures var r := FieldIssuesWith(pos, f, ks);
      && (forall k :: MissingKey(pos, k) in r <==> k in ks.required && k !in f)
      && (TitleEmpty(pos) in r <==> EmptyText(Get(f, ks.title, JStr(""))))
      && (DescriptionEmpty(pos) in r <==> EmptyText(Get(f, ks.desc, JStr(""))))
      && (HoursNotNumber(pos) in r <==> !IsNumber(Get(f, ks.hours, JNull)))
      && (var eh := Get(f, ks.hours, JNull);
          HoursOutOfRange(pos, eh) in r <==> IsNumber(eh) && !(1 <= NumberValue(eh) <= 4))
      && (RelatedNotList(pos) in r <==> !Get(f, ks.related, JNull).JArr?)
  {
    var m := MissingIssues(pos, f, ks.required);
    MissingIssuesSpec(pos, f, ks.required);
    var title, desc := EmptyText(Get(f, ks.title, JStr(""))), EmptyText(Get(f, ks.desc, JStr("")));
    var eh, rel := Get(f, ks.hours, JNull), Get(f, ks.related, JNull).JArr?;
    ChecksMissingKinds(pos, m, title, desc, eh, rel);
    ChecksValueKinds(pos, m, title, desc, eh, rel);
  }

  /** A dictionary task raises no issue exactly when it is valid. */
  lemma FieldIssuesWithEmptyIff(pos: nat, f: Obj, ks: TaskKeys)
    ensures |FieldIssuesWith(pos, f, ks)| == 0 <==> FieldsOkWith(f, ks)
  {
    MissingIssuesEmptyIff(pos, f, ks.required);
    var title, desc := EmptyText(Get(f, ks.title, JStr(""))), EmptyText(Get(f, ks.desc, JStr("")));
    var eh, rel := Get(f, ks.hours, JNull), Get(f, ks.related, JNull).JArr?;
    ValueIssuesEmptyIff(pos, title, desc, eh, rel);
  }

  /** The issues of the task at 1-based position `pos`. */
  function TaskIssuesAt(pos: nat, task: Json): seq<TaskIssue> {
    if !task.JObj? then [NotObject(pos)] else FieldIssuesWith(pos, task.fields, TASK_KEYS)
  }

  const TaskCheck: (nat, Json) -> seq<TaskIssue> := (p: nat, x: Json) => TaskIssuesAt(p, x)
  const TaskIssuePos: TaskIssue -> int := (e: TaskIssue) => e.Pos()

  /** Every issue of a task names that task. */
  lemma TaskCheckLocal()
    ensures Local(TaskCheck, TaskIssuePos)
  {
    forall p, x, e | e in TaskCheck(p, x) ensures TaskIssuePos(e) == p {
      if x.JObj? {
        FieldIssuesWithPos(p, x.fields, TASK_KEYS);
      }
    }
  }

  /** What a valid task is, stated directly: a dictionary whose fields pass `FieldsOkWith`. */
  predicate TaskOk(task: Json) {
    task.JObj? && FieldsOkWith(task.fields, TASK_KEYS)
  }

  /** `not str(v).strip()` is `str(v)` being all whitespace. */
  lemma EmptyTextIsStripEmpty(v: Json)
    ensures EmptyText(v) <==> |Strip(PyStr(v))| == 0
  {
    StripEmptyIffBlank(PyStr(v));
    if !v.JStr? {
      var t := PyStr(v);
      assert |t| > 0 && !IsSpace(t[0]) by {
        if v.JInt? && v.i >= 0 {
          assert IsDigit(Digits(v.i)[0]);
        }
      }
    }
  }

  lemma MissingIssuesEmptyIff(pos: nat, fields: Obj, keys: seq<string>)
    ensures |MissingIssues(pos, fields, keys)| == 0 <==> forall k :: k in keys ==> k in fields
  {
    MissingIssuesSpec(pos, fields, keys);
    var r := MissingIssues(pos, fields, keys);
    if |r| > 0 {
      assert r[0] in r;
    }
  }

  /** A task raises no issue exactly when it is valid. */
  lemma TaskIssuesAtEmptyIff(pos: nat, task: Json)
    ensures |TaskIssuesAt(pos, task)| == 0 <==> TaskOk(task)
  {
    if task.JObj? {
      FieldIssuesWithEmptyIff(pos, task.fields, TASK_KEYS);
    }
  }

  /** Each kind of per-task issue is raised exactly when its condition holds. */
  lemma TaskIssuesAtKinds(pos: nat, task: Json)
    ensures NotObject(pos) in TaskIssuesAt(pos, task) <==> !task.JObj?
    ensures task.JObj? ==> var f, ks := task.fields, TASK_KEYS; var r := TaskIssuesAt(pos, task);
      && (forall k :: MissingKey(pos, k) in r <==> k in ks.required && k !in f)
      && (TitleEmpty(pos) in r <==> EmptyText(Get(f, ks.title, JStr(""))))
      && (DescriptionEmpty(pos) in r <==> EmptyText(Get(f, ks.desc, JStr(""))))
      && (HoursNotNumber(pos) in r <==> !IsNumber(Get(f, ks.hours, JNull)))
      && (var eh := Get(f, ks.hours, JNull);
          HoursOutOfRange(pos, eh) in r <==> IsNumber(eh) && !(1 <= NumberValue(eh) <= 4))
      && (RelatedNotList(pos) in r <==> !Get(f, ks.related, JNull).JArr?)
    ensures !task.JObj? ==> TaskIssuesAt(pos, task) == [NotObject(pos)]
  {
    if task.JObj? {
      FieldIssuesWithPos(pos, task.fields, TASK_KEYS);
      FieldIssuesWithKinds(pos, task.fields, TASK_KEYS);
    }
  }


  /** The task list a `{"tasks": ...}` object holds, when it is a non-empty list. */
  predicate NonEmptyList(v: Json) {
    v.JArr? && |v.items| > 0
  }

  /** `validate_tasks(tasks_obj, max_tasks_per_ac=limit)`. */
  function ValidateTasks(tasksObj: Obj, limit: int): (v: Verdict<TaskIssue>)
    ensures v.ok <==> |v.errors| == 0
    ensures !NonEmptyList(Get(tasksObj, "tasks", JNull)) ==> v.errors == [NotNonEmptyList]
  {
    var tasks := Get(tasksObj, "tasks", JNull);
    if !NonEmptyList(tasks) then Verdict(false, [NotNonEmptyList])
    else
      var n := |tasks.items|;
      var errs := (if limit > 0 && n > limit then [TooMany(n, limit)] else [])
                  + IssuesFrom(tasks.items, 1, TaskCheck);
      Verdict(|errs| == 0, errs)
  }

  /** What `validate_tasks` accepts, stated directly: a non-empty list, no longer than a
      positive limit, of valid tasks. */
  predicate TasksOk(tasksObj: Obj, limit: int) {
    var tasks := Get(tasksObj, "tasks", JNull);
    NonEmptyList(tasks)
    && (limit > 0 ==> |tasks.items| <= limit)
    && forall i :: 0 <= i < |tasks.items| ==> TaskOk(tasks.items[i])
  }

  /** The verdict is ok exactly when the input is valid. */
  lemma ValidateTasksOkIff(tasksObj: Obj, limit: int)
    ensures ValidateTasks(tasksObj, limit).ok <==> TasksOk(tasksObj, limit)
  {
    var tasks := Get(tasksObj, "tasks", JNull);
    if NonEmptyList(tasks) {
      IssuesFromEmptyIff(tasks.items, 1, TaskCheck);
      TaskCheckEmptyIff();
    }
  }

  // ---------------------------------------------------------------------------
  // validate_tasks_obj
  // ---------------------------------------------------------------------------

  /** The names `validate.py` defines. */
  const VALIDATE_PY_NAMES: seq<string> := ["validate_tasks", "validate_result"]

  /** `from .validate import name`: the name when `validate.py` defines it, an
      `ImportError` otherwise. */
  function ImportFromValidate(name: string): (r: Result<string>)
    ensures r.Ok? <==> name in VALIDATE_PY_NAMES
    ensures r.Ok? ==> r.value == name
  {
    if name in VALIDATE_PY_NAMES then Ok(name)
    else Err("ImportError: cannot import name '" + name + "' from 'task_planning.validate'")
  }

  /** As written, the group task generator and the per-AC pipeline import
      `validate_tasks_obj`, which `validate.py` does not define: the import raises. */
  lemma ValidateTasksObjMissing()
    ensures ImportFromValidate("validate_tasks_obj").Err?
    ensures ImportFromValidate("validate_tasks").Ok?
  {
    assert |"validate_tasks_obj"| != |VALIDATE_PY_NAMES[0]|;
    assert |"validate_tasks_obj"| != |VALIDATE_PY_NAMES[1]|;
  }

  /** The validator the callers evidently mean: `validate_tasks` with the call's
      `max_tasks` as `max_tasks_per_ac`. It accepts exactly a valid task object. */
  function ValidateTasksObj(tasksObj: Obj, maxTasks: int): (v: Verdict<TaskIssue>)
    ensures v.ok <==> TasksOk(tasksObj, maxTasks)
    ensures v.ok <==> |v.errors| == 0
  {
    ValidateTasksOkIff(tasksObj, maxTasks);
    ValidateTasks(tasksObj, maxTasks)
  }

  lemma TaskCheckEmptyIff()
    ensures forall p, x :: |TaskCheck(p, x)| == 0 <==> TaskOk(x)
  {
    forall p, x ensures |TaskCheck(p, x)| == 0 <==> TaskOk(x) {
      TaskIssuesAtEmptyIff(p, x);
    }
  }

  /** The length issue is raised exactly when a positive limit is exceeded. */
  lemma ValidateTasksTooMany(tasksObj: Obj, limit: int)
    requires NonEmptyList(Get(tasksObj, "tasks", JNull))
    ensures var n := |Get(tasksObj, "tasks", JNull).items|;
      TooMany(n, limit) in ValidateTasks(tasksObj, limit).errors <==> limit > 0 && n > limit
  {
    var tasks := Get(tasksObj, "tasks", JNull);
    var n := |tasks.items|;
    TaskCheckLocal();
    IssuesFromLocal(tasks.items, 1, TaskCheck, TaskIssuePos, TooMany(n, limit));
  }

  /** An issue about task `k` is reported exactly when the task at position `k` raises it:
      every check of every task is run, and nothing is reported twice under another
      position. */
  lemma ValidateTasksLocal(tasksObj: Obj, limit: int, e: TaskIssue)
    requires NonEmptyList(Get(tasksObj, "tasks", JNull)) && e.Pos() >= 0
    ensures var items := Get(tasksObj, "tasks", JNull).items;
      e in ValidateTasks(tasksObj, limit).errors <==>
        1 <= e.Pos() <= |items| && e in TaskIssuesAt(e.Pos(), items[e.Pos() - 1])
  {
    var items := Get(tasksObj, "tasks", JNull).items;
    var n := |items|;
    assert ValidateTasks(tasksObj, limit).errors == (if limit > 0 && n > limit then [TooMany(n, limit)] else []) + IssuesFrom(items, 1, TaskCheck);
    assert e != TooMany(n, limit);
    TaskIssuesLocal(items, e.Pos(), e);
  }

  /** A task issue is found in the list of all of them exactly under its own position. */
  lemma TaskIssuesLocal(items: seq<Json>, k: nat, e: TaskIssue)
    requires e.Pos() == k
    ensures e in IssuesFrom(items, 1, TaskCheck) <==> 1 <= k <= |items| && e in TaskIssuesAt(k, items[k - 1])
  {
    assert TaskIssuePos(e) == k;
    TaskCheckLocal();
    IssuesFromLocalAt(items, 1, TaskCheck, TaskIssuePos, e, k);
    if 1 <= k <= |items| {
      assert TaskCheck(k, items[k - 1]) == TaskIssuesAt(k, items[k - 1]);
    }
  }

  /** A task with every required key, a stripped string title and a number in 1..4 for
      the hours is valid exactly when its title is non-empty, its description not blank
      and its related titles a list. */
  lemma ShapedFieldsOk(r: Obj, ks: TaskKeys)
    requires forall k :: k in ks.required ==> k in r
    requires ks.title in r && r[ks.title].JStr? && Stripped(r[ks.title].s)
    requires ks.hours in r && r[ks.hours].JInt? && 1 <= r[ks.hours].i <= 4
    requires ks.desc in r && ks.related in r
    ensures FieldsOkWith(r, ks) <==> r[ks.title].s != "" && !EmptyText(r[ks.desc]) && r[ks.related].JArr?
  {
    var title := r[ks.title].s;
    if title != "" {
      assert !IsSpace(title[0]);
      assert !Blank(title);
    }
  }

  /** Every key a task must carry is among those the group normaliser always writes. */
  lemma GroupTaskRequiredKeys(t: Obj)
    ensures forall k :: k in REQUIRED_TASK_KEYS ==> k in GroupTask(t)
  {
    GroupTaskSpec(t);
    RequiredKeysWritten();
  }

  /** The required keys are the title, the two coerced fields and the defaulted keys. */
  lemma RequiredKeysWritten()
    ensures forall k :: k in REQUIRED_TASK_KEYS ==>
      k == "title" || k == "subcategory" || k == "estimate_hours" ||
      exists i :: 0 <= i < |GROUP_TASK_DEFAULTS| && GROUP_TASK_DEFAULTS[i].0 == k
  {
    var d := GROUP_TASK_DEFAULTS;
    assert d[0].0 == "category" && d[1].0 == "status" && d[2].0 == "priority";
    assert d[3].0 == "related_task_titles" && d[4].0 == "description";
  }

  /** A task the group normaliser produced has every required key but `title` and
      `description` by construction, a number in 1..4 for the hours, and keeps whatever
      `related_task_titles` it had: so it is valid exactly when its title is non-empty,
      its description not blank and its related titles a list. */
  lemma NormalizedTaskOkIff(t: Obj)
    ensures var r := GroupTask(t);
      TaskOk(JObj(r)) <==>
        && Get(r, "title", JNull) != JStr("")
        && !EmptyText(Get(r, "description", JNull))
        && Get(r, "related_task_titles", JNull).JArr?
  {
    GroupTaskSpec(t);
    GroupTaskRequiredKeys(t);
    ShapedFieldsOk(GroupTask(t), TASK_KEYS);
  }

  // ---------------------------------------------------------------------------
  // validate_result
  // ---------------------------------------------------------------------------

  /** Each task issue of an item, tagged with the item's position. */
  function InItems(i: nat, es: seq<TaskIssue>): (r: seq<ResultIssue>)
    ensures |r| == |es| && forall j :: 0 <= j < |es| ==> r[j] == InItem(i, es[j])
  {
    seq(|es|, j requires 0 <= j < |es| => InItem(i, es[j]))
  }

  /** The `{"tasks": item.get("tasks")}` object an item's tasks are checked as. */
  function ItemTasks(f: Obj): Obj {
    map["tasks" := Get(f, "tasks", JNull)]
  }

  /** The issues of the item at 1-based position `i`. */
  function ItemIssuesAt(i: nat, item: Json, limit: int): seq<ResultIssue> {
    if !item.JObj? then [ItemNotObject(i)]
    else
      var f := item.fields;
      var v := ValidateTasks(ItemTasks(f), limit);
      (if "ac_index" !in f then [AcIndexMissing(i)] else [])
      + (if EmptyText(Get(f, "ac_text", JStr(""))) then [AcTextEmpty(i)] else [])
      + (if !v.ok then InItems(i, v.errors) else [])
  }

  function ItemCheck(limit: int): (nat, Json) -> seq<ResultIssue> {
    (p: nat, x: Json) => ItemIssuesAt(p, x, limit)
  }

  /** Every issue of an item names that item. */
  lemma ItemCheckLocal(limit: int)
    ensures Local(ItemCheck(limit), ResultIssuePos)
  {
  }

  const ResultIssuePos: ResultIssue -> int := (e: ResultIssue) => e.Pos()

  /** `validate_result(result, max_tasks_per_ac=limit)`. */
  function ValidateResult(result: Obj, limit: int): (v: Verdict<ResultIssue>)
    ensures v.ok <==> |v.errors| == 0
    ensures !Get(result, "items", JNull).JArr? ==> v.errors == [ItemsNotList]
  {
    var items := Get(result, "items", JNull);
    if !items.JArr? then Verdict(false, [ItemsNotList])
    else
      var errs := IssuesFrom(items.items, 1, ItemCheck(limit));
      Verdict(|errs| == 0, errs)
  }

  /** What a valid item is, stated directly. */
  predicate ItemOk(item: Json, limit: int) {
    && item.JObj?
    && "ac_index" in item.fields
    && !EmptyText(Get(item.fields, "ac_text", JStr("")))
    && TasksOk(ItemTasks(item.fields), limit)
  }

  lemma ItemIssuesAtEmptyIff(i: nat, item: Json, limit: int)
    ensures |ItemIssuesAt(i, item, limit)| == 0 <==> ItemOk(item, limit)
  {
    if item.JObj? {
      ValidateTasksOkIff(ItemTasks(item.fields), limit);
    }
  }

  /** The result verdict is ok exactly when `items` is a list of valid items. */
  lemma ValidateResultOkIff(result: Obj, limit: int)
    ensures ValidateResult(result, limit).ok <==>
      var items := Get(result, "items", JNull);
      items.JArr? && forall i :: 0 <= i < |items.items| ==> ItemOk(items.items[i], limit)
  {
    var items := Get(result, "items", JNull);
    if items.JArr? {
      IssuesFromEmptyIff(items.items, 1, ItemCheck(limit));
      ItemCheckEmptyIff(limit);
    }
  }

  /** An item, checked at any position, raises no issue exactly when it is valid. */
  lemma ItemCheckEmptyIff(limit: int)
    ensures forall p, x :: |ItemCheck(limit)(p, x)| == 0 <==> ItemOk(x, limit)
  {
    forall p, x ensures |ItemCheck(limit)(p, x)| == 0 <==> ItemOk(x, limit) {
      assert ItemCheck(limit)(p, x) == ItemIssuesAt(p, x, limit);
      ItemIssuesAtEmptyIff(p, x, limit);
    }
  }

  /** The tagged issues are exactly the item's own. */
  lemma InItemsMember(i: nat, es: seq<TaskIssue>, e: TaskIssue)
    ensures InItem(i, e) in InItems(i, es) <==> e in es
  {
    if e in es {
      var j :| 0 <= j < |es| && es[j] == e;
      assert InItems(i, es)[j] == InItem(i, e);
    }
  }

  /** A task issue is reported under an item exactly when the item is a dictionary whose
      own tasks raise it. */
  lemma ItemIssuesAtInItem(i: nat, item: Json, limit: int, e: TaskIssue)
    ensures InItem(i, e) in ItemIssuesAt(i, item, limit) <==>
      item.JObj? && e in ValidateTasks(ItemTasks(item.fields), limit).errors
  {
    if item.JObj? {
      InItemsMember(i, ValidateTasks(ItemTasks(item.fields), limit).errors, e);
    }
  }

  /** A task issue appears under item `k`, prefixed with that item's position, exactly when
      item `k` is a dictionary whose own tasks raise it. */
  lemma ValidateResultPrefixed(result: Obj, limit: int, k: nat, e: TaskIssue)
    requires Get(result, "items", JNull).JArr?
    ensures var items := Get(result, "items", JNull).items;
      InItem(k, e) in ValidateResult(result, limit).errors <==>
        && 1 <= k <= |items| && items[k - 1].JObj?
        && e in ValidateTasks(ItemTasks(items[k - 1].fields), limit).errors
  {
    var items := Get(result, "items", JNull).items;
    assert ValidateResult(result, limit).errors == IssuesFrom(items, 1, ItemCheck(limit));
    ResultIssuesLocal(items, limit, k, e);
    if 1 <= k <= |items| {
      ItemIssuesAtInItem(k, items[k - 1], limit, e);
    }
  }

  /** An item issue is found in the list of all of them exactly under its own position. */
  lemma ResultIssuesLocal(items: seq<Json>, limit: int, k: nat, e: TaskIssue)
    ensures InItem(k, e) in IssuesFrom(items, 1, ItemCheck(limit)) <==>
      1 <= k <= |items| && InItem(k, e) in ItemIssuesAt(k, items[k - 1], limit)
  {
    var f := ItemCheck(limit);
    var x := InItem(k, e);
    assert ResultIssuePos(x) == k;
    ItemCheckLocal(limit);
    IssuesFromLocalAt(items, 1, f, ResultIssuePos, x, k);
    if 1 <= k <= |items| {
      assert f(k, items[k - 1]) == ItemIssuesAt(k, items[k - 1], limit);
    }
  }

  // ---------------------------------------------------------------------------
  // Message texts
  // ---------------------------------------------------------------------------

  function TaskPrefix(pos: nat): string {
    "tasks[" + IntToString(pos) + "]."
  }

  /** The message `validate_tasks` prints for an issue. */
  function TaskIssueText(e: TaskIssue): string {
    match e
    case NotNonEmptyList => "tasks must be a non-empty list"
    case TooMany(n, m) => "tasks exceeds max_tasks_per_ac (" + IntToString(n) + " > " + IntToString(m) + ")"
    case NotObject(p) => "tasks[" + IntToString(p) + "] must be an object"
    case MissingKey(p, k) => TaskPrefix(p) + k + " is missing"
    case TitleEmpty(p) => TaskPrefix(p) + "title is empty"
    case DescriptionEmpty(p) => TaskPrefix(p) + "description is empty"
    case HoursNotNumber(p) => TaskPrefix(p) + "estimate_hours must be number"
    case HoursOutOfRange(p, v) => TaskPrefix(p) + "estimate_hours must be 1-4 (got " + PyStr(v) + ")"
    case RelatedNotList(p) => TaskPrefix(p) + "related_task_titles must be list"
  }

  /** The message `validate_result` prints for an issue; task issues gain the item prefix. */
  function ResultIssueText(e: ResultIssue): string {
    match e
    case ItemsNotList => "result.items must be a list"
    case ItemNotObject(i) => "items[" + IntToString(i) + "] must be an object"
    case AcIndexMissing(i) => "items[" + IntToString(i) + "].ac_index is missing"
    case AcTextEmpty(i) => "items[" + IntToString(i) + "].ac_text is empty"
    case InItem(i, t) => "items[" + IntToString(i) + "]." + TaskIssueText(t)
  }
}
