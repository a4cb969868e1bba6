/**
 * `_normalize_tasks`, in its two versions: the group task generator's
 * (grouped_taskgen/taskgen_agent.py) and the per-AC pipeline's
 * (pipeline.py). Both keep the dictionary entries of the `tasks` list, add
 * default fields without overwriting, coerce `subcategory` into the allowed
 * set, clamp `estimate_hours` to 1..4 and cut the list to `max_tasks`; the
 * group version also cleans `ac_ids` and strips `title`.
 */
module TaskNormalize {
  import opened Wrappers
  import opened Strings
  import opened PyJson
  import opened Policy
  import opened GroupingSchema

  const ALLOWED_SUBCATS: seq<string> := ["[Code][BE]", "[Code][FE]", "[Code][DB]", "[Test]", "[Doc]", "[Ops]"]
  const DEFAULT_SUBCAT: string := "[Code][BE]"
  const DEFAULT_DESCRIPTION: string := "Goal:...\nChanges:...\nAcceptance checks:..."

  /** The `setdefault` calls of the group version, in order. */
  const GROUP_TASK_DEFAULTS: seq<(string, Json)> := [
    ("category", JStr("Task")),
    ("status", JStr("Todo")),
    ("priority", JStr("Medium")),
    ("related_task_titles", JArr([])),
    ("description", JStr(DEFAULT_DESCRIPTION))]

  /** The `setdefault` calls of the pipeline version, in order. */
  const PIPELINE_TASK_DEFAULTS: seq<(string, Json)> := [
    ("category", JStr("Task")),
    ("status", JStr("Todo")),
    ("priority", JStr("Medium")),
    ("assignee", JStr("")),
    ("related_task_titles", JArr([])),
    ("period", JStr(""))]

  lemma GroupDefaultsDistinct()
    ensures DistinctKeys(GROUP_TASK_DEFAULTS)
  {
    var d := GROUP_TASK_DEFAULTS;
    assert d[0].0 == "category" && d[1].0 == "status" && d[2].0 == "priority";
    assert d[3].0 == "related_task_titles" && d[4].0 == "description";
  }

  lemma PipelineDefaultsDistinct()
    ensures DistinctKeys(PIPELINE_TASK_DEFAULTS)
  {
    var d := PIPELINE_TASK_DEFAULTS;
    assert d[0].0 == "category" && d[1].0 == "status" && d[2].0 == "priority";
    assert d[3].0 == "assignee" && d[4].0 == "related_task_titles" && d[5].0 == "period";
  }

  // ---------------------------------------------------------------------------
  // Field rules
  // ---------------------------------------------------------------------------

  /** The text the `subcategory` rule starts from: `str(v or "[Code][BE]").strip()`, cut
      before the first `|` and stripped again when it holds one. */
  function SubcategoryCut(v: Json): string {
    var sub := Strip(PyStr(if Truthy(v) then v else JStr(DEFAULT_SUBCAT)));
    if '|' in sub then Strip(BeforeFirst(sub, '|')) else sub
  }

  /** The group version's rule: anything outside the allowed set becomes `[Code][BE]`. */
  function Subcategory(v: Json): (r: string)
    ensures r in ALLOWED_SUBCATS
    ensures SubcategoryCut(v) in ALLOWED_SUBCATS ==> r == SubcategoryCut(v)
  {
    var cut := SubcategoryCut(v);
    if cut in ALLOWED_SUBCATS then cut else DEFAULT_SUBCAT
  }

  /** The pipeline's rule, which also maps an empty cut to `[Code][BE]` before the
      allowed-set test. */
  function PipelineSubcategory(v: Json): (r: string)
    ensures r in ALLOWED_SUBCATS
  {
    var cut := SubcategoryCut(v);
    var sub := if |cut| == 0 then DEFAULT_SUBCAT else cut;
    if sub in ALLOWED_SUBCATS then sub else DEFAULT_SUBCAT
  }

  /** The extra empty test of the pipeline changes nothing: both rules agree everywhere. */
  lemma PipelineSubcategoryAgrees(v: Json)
    ensures PipelineSubcategory(v) == Subcategory(v)
  {
    assert "" !in ALLOWED_SUBCATS;
  }

  /** Each allowed label is non-empty, free of `|`, and starts with `[` and ends with `]`. */
  lemma AllowedShape(s: string)
    requires s in ALLOWED_SUBCATS
    ensures |s| > 0 && '|' !in s && s[0] == '[' && s[|s| - 1] == ']'
  {
  }

  /** An allowed label is kept as it is, and only allowed labels are: the rule is the
      identity exactly on its own range. */
  lemma SubcategoryFixedIff(s: string)
    ensures Subcategory(JStr(s)) == s <==> s in ALLOWED_SUBCATS
  {
    if s in ALLOWED_SUBCATS {
      AllowedShape(s);
      LStripOfNonSpaceStart(s);
      RStripOfNonSpaceEnd(s);
      assert Strip(s) == s;
      assert SubcategoryCut(JStr(s)) == s;
    }
  }

  /** `min(4, max(1, int(v)))`, with 2 where `int()` raises. */
  function Hours(v: Json): (h: int)
    ensures 1 <= h <= 4
    ensures PyInt(v).Some? && 1 <= PyInt(v).value <= 4 ==> h == PyInt(v).value
    ensures PyInt(v).Some? && PyInt(v).value < 1 ==> h == 1
    ensures PyInt(v).Some? && PyInt(v).value > 4 ==> h == 4
    ensures PyInt(v).None? ==> h == 2
  {
    var raw := match PyInt(v) case Some(i) => i case None => 2;
    Min(4, Max(1, raw))
  }

  /** A text estimate is read as `int()` reads it: "1_0" is ten hours, clamped to 4;
      "1__0" makes `int()` raise and gives the default 2. */
  lemma HoursOfText()
    ensures Hours(JStr("1_0")) == 4 && Hours(JStr("1__0")) == 2
  {
    ParseIntUnderscores();
    ParseIntDoubleUnderscore();
  }

  /** The items of a list, or none for anything else (`if not isinstance(x, list): x = []`). */
  function ListItems(v: Json): seq<Json> {
    if v.JArr? then v.items else []
  }

  /** `[str(x).strip() for x in items if str(x).strip()]`. */
  function IdTexts(items: seq<Json>): (r: seq<string>)
    ensures StrippedNonEmpty(r)
    ensures |r| <= |items|
  {
    if |items| == 0 then []
    else
      var t := Strip(PyStr(items[0]));
      StripStripped(PyStr(items[0]));
      var rest := IdTexts(items[1..]);
      StrippedNonEmptyAppend(if |t| > 0 then [t] else [], rest);
      (if |t| > 0 then [t] else []) + rest
  }

  /** Cleaning a list that is already clean gives it back. */
  lemma {:induction false} IdTextsOfClean(xs: seq<string>)
    requires StrippedNonEmpty(xs)
    ensures IdTexts(StrArr(xs).items) == xs
  {
    if |xs| > 0 {
      var items := StrArr(xs).items;
      assert items[0] == JStr(xs[0]);
      StripOfStripped(xs[0]);
      IdTextsOfClean(xs[1..]);
      assert items[1..] == StrArr(xs[1..]).items;
      assert xs == [xs[0]] + xs[1..];
    }
  }

  /** `str(v).strip()` for the title. */
  function Title(v: Json): (r: string)
    ensures Stripped(r)
  {
    StripStripped(PyStr(v));
    Strip(PyStr(v))
  }

  // ---------------------------------------------------------------------------
  // One task
  // ---------------------------------------------------------------------------

  /** The keys a default list sets, in order. */
  function DefaultKeys(defs: seq<(string, Json)>): (ks: seq<string>)
    ensures |ks| == |defs| && forall i :: 0 <= i < |defs| ==> ks[i] == defs[i].0
  {
    seq(|defs|, i requires 0 <= i < |defs| => defs[i].0)
  }

  /** No key is given a default twice. */
  predicate DistinctKeys(defs: seq<(string, Json)>) {
    forall i, j :: 0 <= i < j < |defs| ==> defs[i].0 != defs[j].0
  }

  /** The `setdefault` calls in order: existing fields are never overwritten, every
      default key ends up present, nothing else is added, and (keys being distinct) a
      missing key receives its default. */
  function WithDefaults(t: Obj, defs: seq<(string, Json)>): (r: Obj)
    ensures forall k :: k in t ==> k in r && r[k] == t[k]
    ensures forall i :: 0 <= i < |defs| ==> defs[i].0 in r
    ensures forall k :: k in r ==> k in t || k in DefaultKeys(defs)
    ensures DistinctKeys(defs) ==>
              forall i :: 0 <= i < |defs| && defs[i].0 !in t ==> r[defs[i].0] == defs[i].1
    decreases |defs|
  {
    if |defs| == 0 then t
    else
      var t1 := SetDefault(t, defs[0].0, defs[0].1);
      var r := WithDefaults(t1, defs[1..]);
      assert forall k :: k in DefaultKeys(defs[1..]) ==> k in DefaultKeys(defs);
      r
  }

  /** Defaults change nothing on a task that already has every default key. */
  lemma WithDefaultsPresent(t: Obj, defs: seq<(string, Json)>)
    requires forall i :: 0 <= i < |defs| ==> defs[i].0 in t
    ensures WithDefaults(t, defs) == t
  {
    var r := WithDefaults(t, defs);
    assert r.Keys == t.Keys;
  }

  /** Two successive overwrites keep every other field and add no other key. */
  lemma Overwrite2(m: Obj, a: string, va: Json, b: string, vb: Json)
    ensures var r := m[a := va][b := vb];
      && (forall k :: k in m && k != a && k != b ==> k in r && r[k] == m[k])
      && (forall k :: k in r ==> k in m || k == a || k == b)
      && b in r && r[b] == vb && a in r && (a != b ==> r[a] == va)
  {
  }

  /** Writing back the values a map already holds changes nothing. */
  lemma OverwriteSame(m: Obj, a: string, b: string)
    requires a in m && b in m
    ensures m[a := m[a]][b := m[b]] == m
  {
  }

  /** Whether the group version overwrites field `k` unconditionally. */
  predicate GroupRewritten(k: string) {
    k == "subcategory" || k == "estimate_hours" || k == "ac_ids" || k == "title"
  }

  /** The defaults of each version name none of the fields it overwrites. */
  lemma DefaultsNotRewritten()
    ensures forall i :: 0 <= i < |GROUP_TASK_DEFAULTS| ==> !GroupRewritten(GROUP_TASK_DEFAULTS[i].0)
    ensures forall i :: 0 <= i < |PIPELINE_TASK_DEFAULTS| ==>
              PIPELINE_TASK_DEFAULTS[i].0 != "subcategory" && PIPELINE_TASK_DEFAULTS[i].0 != "estimate_hours"
  {
  }

  /** One task of the group version: defaults first, then four fields rewritten. */
  function GroupTask(t: Obj): Obj {
    WithDefaults(t, GROUP_TASK_DEFAULTS)
      ["subcategory" := JStr(Subcategory(Get(t, "subcategory", JNull)))]
      ["estimate_hours" := JInt(Hours(Get(t, "estimate_hours", JInt(2))))]
      ["ac_ids" := StrArr(IdTexts(ListItems(Get(t, "ac_ids", JArr([])))))]
      ["title" := JStr(Title(Get(t, "title", JStr(""))))]
  }

  /** The group version keeps every field it does not rewrite and adds only default keys
      and the rewritten ones. */
  lemma GroupTaskKeeps(t: Obj)
    ensures forall k :: k in t && !GroupRewritten(k) ==> k in GroupTask(t) && GroupTask(t)[k] == t[k]
    ensures forall k :: k in GroupTask(t) ==> k in t || k in DefaultKeys(GROUP_TASK_DEFAULTS) || GroupRewritten(k)
  {
    var d := WithDefaults(t, GROUP_TASK_DEFAULTS);
    var vs := JStr(Subcategory(Get(t, "subcategory", JNull)));
    var vh := JInt(Hours(Get(t, "estimate_hours", JInt(2))));
    var va := StrArr(IdTexts(ListItems(Get(t, "ac_ids", JArr([])))));
    var vt := JStr(Title(Get(t, "title", JStr(""))));
    var m := d["subcategory" := vs]["estimate_hours" := vh];
    assert GroupTask(t) == m["ac_ids" := va]["title" := vt];
    Overwrite2(d, "subcategory", vs, "estimate_hours", vh);
    Overwrite2(m, "ac_ids", va, "title", vt);
  }

  /** The shape both versions give `subcategory` and `estimate_hours`. */
  predicate CoercedFields(r: Obj) {
    && "subcategory" in r && r["subcategory"].JStr? && r["subcategory"].s in ALLOWED_SUBCATS
    && "estimate_hours" in r && r["estimate_hours"].JInt? && 1 <= r["estimate_hours"].i <= 4
  }

  /** A list of stripped, non-empty strings. */
  predicate CleanStrList(v: Json) {
    v.JArr? && (forall i :: 0 <= i < |v.items| ==> v.items[i].JStr?)
    && StrippedNonEmpty(seq(|v.items|, i requires 0 <= i < |v.items| => v.items[i].s))
  }

  /** What the group version guarantees of every task it returns. */
  predicate GroupTaskShape(r: Obj) {
    && CoercedFields(r)
    && "ac_ids" in r && CleanStrList(r["ac_ids"])
    && "title" in r && r["title"].JStr? && Stripped(r["title"].s)
    && forall i :: 0 <= i < |GROUP_TASK_DEFAULTS| ==> GROUP_TASK_DEFAULTS[i].0 in r
  }

  lemma StrArrClean(xs: seq<string>)
    requires StrippedNonEmpty(xs)
    ensures CleanStrList(StrArr(xs))
  {
    var v := StrArr(xs);
    assert seq(|v.items|, i requires 0 <= i < |v.items| => v.items[i].s) == xs;
  }

  lemma CleanStrListItems(v: Json)
    requires CleanStrList(v)
    ensures v == StrArr(seq(|v.items|, i requires 0 <= i < |v.items| => v.items[i].s))
  {
  }

  /** Every task the group version returns has the normalised shape, and a missing default
      key receives its default. */
  lemma GroupTaskSpec(t: Obj)
    ensures GroupTaskShape(GroupTask(t))
    ensures forall i :: 0 <= i < |GROUP_TASK_DEFAULTS| && GROUP_TASK_DEFAULTS[i].0 !in t
              ==> GroupTask(t)[GROUP_TASK_DEFAULTS[i].0] == GROUP_TASK_DEFAULTS[i].1
  {
    var d := WithDefaults(t, GROUP_TASK_DEFAULTS);
    var vs := JStr(Subcategory(Get(t, "subcategory", JNull)));
    var vh := JInt(Hours(Get(t, "estimate_hours", JInt(2))));
    var ids := IdTexts(ListItems(Get(t, "ac_ids", JArr([]))));
    var va := StrArr(ids);
    var vt := JStr(Title(Get(t, "title", JStr(""))));
    var m := d["subcategory" := vs]["estimate_hours" := vh];
    var r := m["ac_ids" := va]["title" := vt];
    assert GroupTask(t) == r;
    Overwrite2(d, "subcategory", vs, "estimate_hours", vh);
    Overwrite2(m, "ac_ids", va, "title", vt);
    StrArrClean(ids);
    GroupDefaultsDistinct();
    DefaultsNotRewritten();
  }

  /** Each field rule gives back a value already in its normal form. */
  lemma SubcategoryValueFixed(v: Json)
    requires v.JStr? && v.s in ALLOWED_SUBCATS
    ensures JStr(Subcategory(v)) == v && JStr(PipelineSubcategory(v)) == v
  {
    SubcategoryFixedIff(v.s);
    PipelineSubcategoryAgrees(v);
  }

  lemma HoursValueFixed(v: Json)
    requires v.JInt? && 1 <= v.i <= 4
    ensures JInt(Hours(v)) == v
  {
  }

  lemma IdsValueFixed(v: Json)
    requires CleanStrList(v)
    ensures StrArr(IdTexts(ListItems(v))) == v
  {
    CleanStrListItems(v);
    IdTextsOfClean(seq(|v.items|, i requires 0 <= i < |v.items| => v.items[i].s));
  }

  lemma TitleValueFixed(v: Json)
    requires v.JStr? && Stripped(v.s)
    ensures JStr(Title(v)) == v
  {
    StripOfStripped(v.s);
  }

  /** A task that already has the normalised shape is a fixed point of the group rule. */
  lemma GroupTaskFixed(r: Obj)
    requires GroupTaskShape(r)
    ensures GroupTask(r) == r
  {
    var d := WithDefaults(r, GROUP_TASK_DEFAULTS);
    var vs := JStr(Subcategory(Get(r, "subcategory", JNull)));
    var vh := JInt(Hours(Get(r, "estimate_hours", JInt(2))));
    var va := StrArr(IdTexts(ListItems(Get(r, "ac_ids", JArr([])))));
    var vt := JStr(Title(Get(r, "title", JStr(""))));
    assert d == r by { WithDefaultsPresent(r, GROUP_TASK_DEFAULTS); }
    assert vs == r["subcategory"] by { SubcategoryValueFixed(r["subcategory"]); }
    assert vh == r["estimate_hours"] by { HoursValueFixed(r["estimate_hours"]); }
    assert va == r["ac_ids"] by { IdsValueFixed(r["ac_ids"]); }
    assert vt == r["title"] by { TitleValueFixed(r["title"]); }
    assert GroupTask(r) == d["subcategory" := vs]["estimate_hours" := vh]["ac_ids" := va]["title" := vt];
    OverwriteSame(r, "subcategory", "estimate_hours");
    OverwriteSame(r, "ac_ids", "title");
  }

  /** Normalising a normalised task changes nothing. */
  lemma GroupTaskIdempotent(t: Obj)
    ensures GroupTask(GroupTask(t)) == GroupTask(t)
  {
    GroupTaskSpec(t);
    GroupTaskFixed(GroupTask(t));
  }

  /** One task of the pipeline version: defaults first, then two fields rewritten. */
  function PipelineTask(t: Obj): Obj {
    WithDefaults(t, PIPELINE_TASK_DEFAULTS)
      ["subcategory" := JStr(PipelineSubcategory(Get(t, "subcategory", JNull)))]
      ["estimate_hours" := JInt(Hours(Get(t, "estimate_hours", JInt(2))))]
  }

  /** The pipeline version keeps every field but the two it rewrites, and adds only default
      keys and those two. */
  lemma PipelineTaskKeeps(t: Obj)
    ensures forall k :: k in t && k != "subcategory" && k != "estimate_hours" ==> k in PipelineTask(t) && PipelineTask(t)[k] == t[k]
    ensures forall k :: k in PipelineTask(t) ==> k in t || k in DefaultKeys(PIPELINE_TASK_DEFAULTS) || k == "subcategory" || k == "estimate_hours"
  {
    var d := WithDefaults(t, PIPELINE_TASK_DEFAULTS);
    var vs := JStr(PipelineSubcategory(Get(t, "subcategory", JNull)));
    var vh := JInt(Hours(Get(t, "estimate_hours", JInt(2))));
    assert PipelineTask(t) == d["subcategory" := vs]["estimate_hours" := vh];
    Overwrite2(d, "subcategory", vs, "estimate_hours", vh);
  }

  /** Every task the pipeline returns has the coerced fields and all default keys, and a
      missing default key receives its default. */
  lemma PipelineTaskSpec(t: Obj)
    ensures CoercedFields(PipelineTask(t))
    ensures forall i :: 0 <= i < |PIPELINE_TASK_DEFAULTS| ==> PIPELINE_TASK_DEFAULTS[i].0 in PipelineTask(t)
    ensures forall i :: 0 <= i < |PIPELINE_TASK_DEFAULTS| && PIPELINE_TASK_DEFAULTS[i].0 !in t
              ==> PipelineTask(t)[PIPELINE_TASK_DEFAULTS[i].0] == PIPELINE_TASK_DEFAULTS[i].1
  {
    var d := WithDefaults(t, PIPELINE_TASK_DEFAULTS);
    var vs := JStr(PipelineSubcategory(Get(t, "subcategory", JNull)));
    var vh := JInt(Hours(Get(t, "estimate_hours", JInt(2))));
    assert PipelineTask(t) == d["subcategory" := vs]["estimate_hours" := vh];
    Overwrite2(d, "subcategory", vs, "estimate_hours", vh);
    PipelineDefaultsDistinct();
    DefaultsNotRewritten();
  }

  /** A task with the coerced fields and every default key is a fixed point of the
      pipeline rule. */
  lemma PipelineTaskFixed(r: Obj)
    requires CoercedFields(r)
    requires forall i :: 0 <= i < |PIPELINE_TASK_DEFAULTS| ==> PIPELINE_TASK_DEFAULTS[i].0 in r
    ensures PipelineTask(r) == r
  {
    var d := WithDefaults(r, PIPELINE_TASK_DEFAULTS);
    var vs := JStr(PipelineSubcategory(Get(r, "subcategory", JNull)));
    var vh := JInt(Hours(Get(r, "estimate_hours", JInt(2))));
    assert d == r by { WithDefaultsPresent(r, PIPELINE_TASK_DEFAULTS); }
    assert vs == r["subcategory"] by { SubcategoryValueFixed(r["subcategory"]); }
    assert vh == r["estimate_hours"] by { HoursValueFixed(r["estimate_hours"]); }
    assert PipelineTask(r) == d["subcategory" := vs]["estimate_hours" := vh];
    OverwriteSame(r, "subcategory", "estimate_hours");
  }

  /** Normalising a normalised task changes nothing. */
  lemma PipelineTaskIdempotent(t: Obj)
    ensures PipelineTask(PipelineTask(t)) == PipelineTask(t)
  {
    PipelineTaskSpec(t);
    PipelineTaskFixed(PipelineTask(t));
  }

  // ---------------------------------------------------------------------------
  // The list
  // ---------------------------------------------------------------------------

  /** Python `xs[:n]`: a negative `n` counts from the end. */
  function SliceTo<T>(xs: seq<T>, n: int): seq<T> {
    if n >= 0 then xs[..Min(n, |xs|)] else xs[..Max(0, |xs| + n)]
  }

  /** The normalised list as JSON, `{"tasks": [...]}`'s value. */
  function TasksJson(ts: seq<Obj>): (v: Json)
    ensures v.JArr? && |v.items| == |ts|
    ensures forall i :: 0 <= i < |ts| ==> v.items[i] == JObj(ts[i])
  {
    JArr(seq(|ts|, i requires 0 <= i < |ts| => JObj(ts[i])))
  }

  /** The per-dictionary step of each loop; the loop index is not used. */
  const GroupRule: (Obj, nat) -> Obj := (t, _) => GroupTask(t)
  const PipelineRule: (Obj, nat) -> Obj := (t, _) => PipelineTask(t)

  lemma GroupRuleIdempotent()
    ensures forall o, n, m :: GroupRule(GroupRule(o, n), m) == GroupRule(o, n)
  {
    forall o, n, m ensures GroupRule(GroupRule(o, n), m) == GroupRule(o, n) {
      GroupTaskIdempotent(o);
    }
  }

  lemma PipelineRuleIdempotent()
    ensures forall o, n, m :: PipelineRule(PipelineRule(o, n), m) == PipelineRule(o, n)
  {
    forall o, n, m ensures PipelineRule(PipelineRule(o, n), m) == PipelineRule(o, n) {
      PipelineTaskIdempotent(o);
    }
  }

  /** The group version: a non-list becomes `[]`, dictionaries are normalised, the rest
      dropped, and the list is cut to `max_tasks`. */
  function NormalizeGroupTasks(tasks: Json, maxTasks: int): (r: seq<Obj>)
    ensures maxTasks >= 0 ==> |r| == Min(maxTasks, CountObjects(ListItems(tasks)))
    ensures |r| <= CountObjects(ListItems(tasks))
  {
    SliceTo(MapObjects(ListItems(tasks), 0, GroupRule), maxTasks)
  }

  /** Every returned task has the normalised shape. */
  lemma GroupTasksShape(tasks: Json, maxTasks: int)
    ensures forall i :: 0 <= i < |NormalizeGroupTasks(tasks, maxTasks)| ==> GroupTaskShape(NormalizeGroupTasks(tasks, maxTasks)[i])
  {
    forall t: Obj ensures GroupTaskShape(GroupTask(t)) {
      GroupTaskSpec(t);
    }
    MapObjectsAll(ListItems(tasks), 0, GroupRule, GroupTaskShape);
  }

  /** The dictionary at raw position `p` is normalised into the slot after the dictionaries
      before it, when that slot survives the cut. */
  lemma GroupTasksPositional(tasks: Json, maxTasks: int, p: nat)
    requires p < |ListItems(tasks)| && ListItems(tasks)[p].JObj?
    requires CountObjects(ListItems(tasks)[..p]) < |NormalizeGroupTasks(tasks, maxTasks)|
    ensures NormalizeGroupTasks(tasks, maxTasks)[CountObjects(ListItems(tasks)[..p])] == GroupTask(ListItems(tasks)[p].fields)
  {
    MapObjectsPositional(ListItems(tasks), 0, GroupRule, p);
  }

  /** Mapping an idempotent rule over the dictionaries and cutting to `cap`, then doing the
      same to the result, changes nothing. */
  lemma MapCutIdempotent(items: seq<Json>, f: (Obj, nat) -> Obj, cap: nat)
    requires forall o, n, m :: f(f(o, n), m) == f(o, n)
    ensures var r := SliceTo(MapObjects(items, 0, f), cap);
      SliceTo(MapObjects(TasksJson(r).items, 0, f), cap) == r
  {
    var xs := MapObjects(items, 0, f);
    var r := SliceTo(xs, cap);
    var P := (x: Obj) => forall m :: f(x, m) == x;
    MapObjectsAll(items, 0, f, P);
    var ys := TasksJson(r).items;
    forall i, n | 0 <= i < |ys| ensures f(ys[i].fields, n) == r[i] {
      assert r[i] == xs[i] && P(xs[i]);
    }
    MapObjectsInverse(ys, 0, f, r);
  }

  /** Normalising the group version's own output again changes nothing. */
  lemma GroupTasksIdempotent(tasks: Json, maxTasks: int)
    requires maxTasks >= 0
    ensures var r := NormalizeGroupTasks(tasks, maxTasks); NormalizeGroupTasks(TasksJson(r), maxTasks) == r
  {
    GroupRuleIdempotent();
    MapCutIdempotent(ListItems(tasks), GroupRule, maxTasks);
  }

  /** The pipeline's `max_tasks`: `int(max_tasks)`, and 1 when that is not positive. */
  function PipelineCap(maxTasks: int): (c: int)
    ensures c >= 1
    ensures maxTasks >= 1 ==> c == maxTasks
  {
    if maxTasks <= 0 then 1 else maxTasks
  }

  /** The pipeline version. */
  function NormalizePipelineTasks(tasks: Json, maxTasks: int): (r: seq<Obj>)
    ensures |r| == Min(PipelineCap(maxTasks), CountObjects(ListItems(tasks)))
  {
    SliceTo(MapObjects(ListItems(tasks), 0, PipelineRule), PipelineCap(maxTasks))
  }

  lemma PipelineTasksShape(tasks: Json, maxTasks: int)
    ensures forall i :: 0 <= i < |NormalizePipelineTasks(tasks, maxTasks)| ==>
      CoercedFields(NormalizePipelineTasks(tasks, maxTasks)[i])
  {
    forall t: Obj ensures CoercedFields(PipelineTask(t)) {
      PipelineTaskSpec(t);
    }
    MapObjectsAll(ListItems(tasks), 0, PipelineRule, CoercedFields);
  }

  /** Normalising the pipeline's own output again changes nothing. */
  lemma PipelineTasksIdempotent(tasks: Json, maxTasks: int)
    ensures var r := NormalizePipelineTasks(tasks, maxTasks); NormalizePipelineTasks(TasksJson(r), maxTasks) == r
  {
    PipelineRuleIdempotent();
    MapCutIdempotent(ListItems(tasks), PipelineRule, PipelineCap(maxTasks));
  }
}
