/**
 * `enforce_ac_traceability`: find the ACs no task names and make every one of them
 * traceable, either by attaching it to the best-matching existing task of its group
 * (`attach`) or by adding one catch-all task per group (`create_task`). The source
 * mutates the group results in place; here the updated group results are returned.
 */
module Traceability {
  import opened Wrappers
  import opened Strings
  import opened Seqs
  import opened PyJson
  import opened AcMaps
  import opened GroupTaskgen
  import opened TraceChoose

  // ---------------------------------------------------------------------------
  // Reading the group results
  // ---------------------------------------------------------------------------

  /** `gr.get("tasks")` of a dictionary group result. */
  function TasksValue(gr: Json): Json {
    if gr.JObj? then Get(gr.fields, "tasks", JNull) else JNull
  }

  /** A truthy value Python cannot iterate: `for t in (v or [])` raises `TypeError`. */
  predicate NotIterable(v: Json) {
    (v.JInt? && v.i != 0) || (v.JBool? && v.b)
  }

  /** The entries `(gr.get("tasks") or [])` iterates over. A string or a dictionary there
      iterates to characters or keys, none of them a dictionary, so they hold no task. */
  function TaskItems(gr: Json): seq<Json> {
    if TasksValue(gr).JArr? then TasksValue(gr).items else []
  }

  /** Some AC id `a` is named by a task of some group result. */
  predicate Covered(grs: seq<Json>, a: string) {
    exists i, j :: 0 <= i < |grs| && 0 <= j < |TaskItems(grs[i])| && TaskCovers(TaskItems(grs[i])[j], a)
  }

  /** The strings among the entries of an id list. */
  function StrIds(ids: seq<Json>): seq<string>
    decreases |ids|
  {
    if |ids| == 0 then [] else (if ids[0].JStr? then [ids[0].s] else []) + StrIds(ids[1..])
  }

  /** The ids the coverage loop adds to `covered` for the tasks of one group result. */
  function CoveredInTasks(items: seq<Json>): seq<string>
    decreases |items|
  {
    if |items| == 0 then [] else StrIds(TaskIds(items[0])) + CoveredInTasks(items[1..])
  }

  /** `covered`, as the loop over all group results collects it. */
  function CoveredIds(grs: seq<Json>): seq<string>
    decreases |grs|
  {
    if |grs| == 0 then [] else CoveredInTasks(TaskItems(grs[0])) + CoveredIds(grs[1..])
  }

  /** The coverage loop raises on a dictionary group result whose tasks cannot be iterated. */
  predicate ResultsRaise(grs: seq<Json>) {
    exists i :: 0 <= i < |grs| && NotIterable(TasksValue(grs[i]))
  }

  /** `[a for a in ac_map if a not in covered]`. */
  function MissingIds(acMap: AcMap, grs: seq<Json>): seq<string> {
    Filter(Keys(acMap), (a: string) => a !in CoveredIds(grs))
  }

  lemma {:induction false} StrIdsSpec(ids: seq<Json>, a: string)
    ensures a in StrIds(ids) <==> JStr(a) in ids
    decreases |ids|
  {
    if |ids| > 0 {
      StrIdsSpec(ids[1..], a);
      assert ids == [ids[0]] + ids[1..];
    }
  }

  lemma {:induction false} CoveredInTasksSpec(items: seq<Json>, a: string)
    ensures a in CoveredInTasks(items) <==> exists j :: 0 <= j < |items| && TaskCovers(items[j], a)
    decreases |items|
  {
    if |items| > 0 {
      CoveredInTasksSpec(items[1..], a);
      StrIdsSpec(TaskIds(items[0]), a);
      if exists j :: 1 <= j < |items| && TaskCovers(items[j], a) {
        var j :| 1 <= j < |items| && TaskCovers(items[j], a);
        assert TaskCovers(items[1..][j - 1], a);
      }
      if exists j :: 0 <= j < |items[1..]| && TaskCovers(items[1..][j], a) {
        var j :| 0 <= j < |items[1..]| && TaskCovers(items[1..][j], a);
        assert TaskCovers(items[j + 1], a);
      }
    }
  }

  /** The collected ids are exactly the covered ones. */
  lemma {:induction false} CoveredIdsSpec(grs: seq<Json>, a: string)
    ensures a in CoveredIds(grs) <==> Covered(grs, a)
    decreases |grs|
  {
    if |grs| > 0 {
      CoveredIdsSpec(grs[1..], a);
      CoveredInTasksSpec(TaskItems(grs[0]), a);
      if Covered(grs, a) {
        var i, j :| 0 <= i < |grs| && 0 <= j < |TaskItems(grs[i])| && TaskCovers(TaskItems(grs[i])[j], a);
        if i > 0 {
          assert grs[1..][i - 1] == grs[i];
        }
      }
      if Covered(grs[1..], a) {
        var i, j :| 0 <= i < |grs[1..]| && 0 <= j < |TaskItems(grs[1..][i])| && TaskCovers(TaskItems(grs[1..][i])[j], a);
        assert grs[1..][i] == grs[i + 1];
      }
    }
  }

  /** The missing ids are exactly the AC ids no task names, in AC map order, each once. */
  lemma MissingSpec(acMap: AcMap, grs: seq<Json>)
    ensures forall a :: a in MissingIds(acMap, grs) <==> a in Keys(acMap) && !Covered(grs, a)
    ensures IsSubseq(MissingIds(acMap, grs), Keys(acMap))
    ensures Distinct(MissingIds(acMap, grs))
  {
    forall a ensures a in MissingIds(acMap, grs) <==> a in Keys(acMap) && !Covered(grs, a) {
      CoveredIdsSpec(grs, a);
    }
    FilterSubseq(Keys(acMap), (a: string) => a !in CoveredIds(grs));
    KeysDistinct(acMap);
    FilterDistinct(Keys(acMap), (a: string) => a !in CoveredIds(grs));
  }

  // ---------------------------------------------------------------------------
  // Where an id belongs
  // ---------------------------------------------------------------------------

  /** `grouping.get("groups")` of a dictionary grouping. */
  function GroupsValue(grouping: Json): Json {
    if grouping.JObj? then Get(grouping.fields, "groups", JNull) else JNull
  }

  /** The groups the loop looks at (a string or a dictionary iterates to no dictionary). */
  function GroupsOf(grouping: Json): seq<Json> {
    if GroupsValue(grouping).JArr? then GroupsValue(grouping).items else []
  }

  /** `g.get("ac_ids")` of a dictionary group. */
  function IdsValue(g: Json): Json {
    if g.JObj? then Get(g.fields, "ac_ids", JNull) else JNull
  }

  /** The strings `for a in (v or [])` yields: the string entries of a list, the characters
      of a string, the keys of a dictionary. */
  function IterStrs(v: Json): set<string> {
    match v
    case JArr(items) => set x | x in items && x.JStr? :: x.s
    case JStr(s) => set c | c in s :: [c]
    case JObj(m) => m.Keys
    case _ => {}
  }

  /** `str(g.get("group_id", ""))`. */
  function GroupIdText(g: Json): string {
    if g.JObj? then PyStr(Get(g.fields, "group_id", JStr(""))) else ""
  }

  /** The group loop raises on groups or ids it cannot iterate. */
  predicate GroupingRaises(grouping: Json) {
    || NotIterable(GroupsValue(grouping))
    || exists i :: 0 <= i < |GroupsOf(grouping)| && NotIterable(IdsValue(GroupsOf(grouping)[i]))
  }

  /** The ids each group lists: those of a dictionary group, none for anything else. */
  function ListedIds(groups: seq<Json>): (r: seq<set<string>>)
    ensures |r| == |groups|
    ensures forall i :: 0 <= i < |groups| ==> r[i] == if groups[i].JObj? then IterStrs(IdsValue(groups[i])) else {}
  {
    seq(|groups|, i requires 0 <= i < |groups| => if groups[i].JObj? then IterStrs(IdsValue(groups[i])) else {})
  }

  /** The position of the last set holding `a`, or -1 when none does. */
  function LastPos(sets: seq<set<string>>, a: string): (r: int)
    ensures -1 <= r < |sets|
    ensures r >= 0 ==> a in sets[r]
    ensures forall j :: r < j < |sets| ==> a !in sets[j]
    decreases |sets|
  {
    if |sets| == 0 then -1
    else if a in sets[|sets| - 1] then |sets| - 1
    else LastPos(sets[..|sets| - 1], a)
  }

  /** Every id some set holds. */
  function Union(sets: seq<set<string>>): (u: set<string>)
    ensures forall a :: a in u <==> LastPos(sets, a) >= 0
    decreases |sets|
  {
    if |sets| == 0 then {} else Union(sets[..|sets| - 1]) + sets[|sets| - 1]
  }

  /** For each id, the position of the last set holding it: a later write overrides an
      earlier one, as in the loops that fill `ac_to_group` and `gid_to_index`. */
  function LastIndex(sets: seq<set<string>>): (m: map<string, nat>)
    ensures forall a :: a in m ==> m[a] < |sets| && a in sets[m[a]]
  {
    map a | a in Union(sets) :: LastPos(sets, a)
  }

  /** `ac_to_group` after the loop over `groups`: each listed id maps to the group id of
      the last dictionary group listing it. */
  function AcToGroup(groups: seq<Json>): map<string, string> {
    var last := LastIndex(ListedIds(groups));
    map a | a in last :: GroupIdText(groups[last[a]])
  }

  /** Set `i` holds `a` and no later set does. */
  predicate HoldsLast(sets: seq<set<string>>, a: string, i: int) {
    && 0 <= i < |sets| && a in sets[i]
    && forall j :: i < j < |sets| ==> a !in sets[j]
  }

  /** An id has an entry exactly when some set holds it, and the entry is the last such set. */
  lemma LastIndexSpec(sets: seq<set<string>>, a: string)
    ensures a in LastIndex(sets) <==> exists i :: 0 <= i < |sets| && a in sets[i]
    ensures a in LastIndex(sets) ==> HoldsLast(sets, a, LastIndex(sets)[a])
  {
    var r := LastPos(sets, a);
    if exists i :: 0 <= i < |sets| && a in sets[i] {
      assert r >= 0;
    }
  }

  /** An id has a group exactly when some dictionary group lists it, and its group id is
      that of the last dictionary group listing it. */
  lemma AcToGroupSpec(groups: seq<Json>, a: string)
    ensures a in AcToGroup(groups) <==> exists i :: 0 <= i < |groups| && groups[i].JObj? && a in IterStrs(IdsValue(groups[i]))
    ensures a in AcToGroup(groups) ==> exists i :: HoldsLast(ListedIds(groups), a, i) && AcToGroup(groups)[a] == GroupIdText(groups[i])
  {
    var sets := ListedIds(groups);
    LastIndexSpec(sets, a);
    if exists i :: 0 <= i < |groups| && groups[i].JObj? && a in IterStrs(IdsValue(groups[i])) {
      var i :| 0 <= i < |groups| && groups[i].JObj? && a in IterStrs(IdsValue(groups[i]));
      assert a in sets[i];
    }
    if a in AcToGroup(groups) {
      var i := LastIndex(sets)[a];
      assert HoldsLast(sets, a, i);
    }
  }

  predicate HasGid(gr: Json, gid: string) {
    gr.JObj? && Get(gr.fields, "group_id", JNull) == JStr(gid)
  }

  /** The string `group_id` of a dictionary group result, as a set of at most one. */
  function GidSet(gr: Json): set<string> {
    var v := if gr.JObj? then Get(gr.fields, "group_id", JNull) else JNull;
    if v.JStr? then {v.s} else {}
  }

  /** `gid_to_index`: a later group result with the same string id overrides an earlier one. */
  function GidIndex(grs: seq<Json>): (m: map<string, nat>)
    ensures forall gid :: gid in m ==> m[gid] < |grs| && HasGid(grs[m[gid]], gid)
  {
    LastIndex(seq(|grs|, i requires 0 <= i < |grs| => GidSet(grs[i])))
  }

  /** A group id resolves exactly when some group result carries it, to the last such one. */
  lemma GidIndexSpec(grs: seq<Json>, gid: string)
    ensures gid in GidIndex(grs) <==> exists i :: 0 <= i < |grs| && HasGid(grs[i], gid)
    ensures gid in GidIndex(grs) ==> forall j :: GidIndex(grs)[gid] < j < |grs| ==> !HasGid(grs[j], gid)
  {
    var sets := seq(|grs|, i requires 0 <= i < |grs| => GidSet(grs[i]));
    LastIndexSpec(sets, gid);
    assert forall i :: 0 <= i < |grs| ==> (HasGid(grs[i], gid) <==> gid in sets[i]);
  }

  /** Two group ids never resolve to the same group result. */
  lemma GidIndexInjective(grs: seq<Json>)
    ensures forall g1, g2 :: g1 in GidIndex(grs) && g2 in GidIndex(grs) && GidIndex(grs)[g1] == GidIndex(grs)[g2] ==> g1 == g2
  {
  }

  // ---------------------------------------------------------------------------
  // attach mode
  // ---------------------------------------------------------------------------

  /** Some entry is a dictionary. */
  predicate HasDict(items: seq<Json>) {
    exists j :: 0 <= j < |items| && items[j].JObj?
  }

  /** The positions of the dictionary entries, in order. */
  function DictPositions(items: seq<Json>): (ps: seq<nat>)
    ensures forall k :: 0 <= k < |ps| ==> ps[k] < |items| && items[ps[k]].JObj?
    ensures HasDict(items) <==> |ps| > 0
    decreases |items|
  {
    if |items| == 0 then []
    else
      var n := |items| - 1;
      var rest := DictPositions(items[..n]);
      assert forall j :: 0 <= j < n ==> items[..n][j] == items[j];
      if items[n].JObj? then rest + [n] else rest
  }

  /** `[t for t in tasks if isinstance(t, dict)]`. */
  function DictTasks(items: seq<Json>): (ts: seq<Obj>)
    ensures |ts| == |DictPositions(items)|
  {
    var ps := DictPositions(items);
    seq(|ps|, k requires 0 <= k < |ps| => items[ps[k]].fields)
  }

  /** The position of the task `_choose_best_task` picks among the dictionary tasks. */
  function ChosenTask(items: seq<Json>, acText: string): (p: nat)
    requires HasDict(items)
    ensures p < |items| && items[p].JObj?
  {
    ChooseBestSpec(DictTasks(items), acText);
    DictPositions(items)[ChooseBest(DictTasks(items), acText)]
  }

  /** The `gid_to_index` entries point into `n` group results. */
  predicate IndexOk(gidIndex: map<string, nat>, n: nat) {
    forall g :: g in gidIndex ==> gidIndex[g] < n
  }

  /** The group result a missing id goes to: the one carrying its group's id, else the
      first one, else none. */
  function AttachTarget(a: string, acToGroup: map<string, string>, gidIndex: map<string, nat>, n: nat): (r: Option<nat>)
    requires IndexOk(gidIndex, n)
    ensures r.Some? ==> r.value < n
    ensures r.None? <==> n == 0
  {
    var gid := if a in acToGroup then acToGroup[a] else "";
    if gid in gidIndex then Some(gidIndex[gid]) else if n > 0 then Some(0) else None
  }

  /** The `ac_ids` list `setdefault` leaves on a task: the list it holds, else a new one. */
  function IdList(t: Obj): seq<Json> {
    if "ac_ids" in t && t["ac_ids"].JArr? then t["ac_ids"].items else []
  }

  /** The task with `a` appended to its `ac_ids`. */
  function AddId(t: Json, a: string): Json
    requires t.JObj?
  {
    JObj(t.fields["ac_ids" := JArr(IdList(t.fields) + [JStr(a)])])
  }

  /** The group result with its `tasks` replaced. */
  function SetTasks(gr: Json, items: seq<Json>): Json
    requires gr.JObj?
  {
    JObj(gr.fields["tasks" := JArr(items)])
  }

  /** Two dictionaries agree on every key but `k`. */
  predicate SameExcept(m0: Obj, m1: Obj, k: string) {
    && m0.Keys - {k} == m1.Keys - {k}
    && forall x :: x in m0 && x != k ==> x in m1 && m0[x] == m1[x]
  }

  /** Two task entries agree but for `ac_ids`, and the ids of the first begin those of the second. */
  predicate SameTask(t0: Json, t1: Json) {
    && (t0.JObj? <==> t1.JObj?)
    && (!t0.JObj? ==> t0 == t1)
    && (t0.JObj? ==> SameExcept(t0.fields, t1.fields, "ac_ids"))
    && IsPrefix(TaskIds(t0), TaskIds(t1))
  }

  /** The group results keep their length, their dictionaries with every key but `tasks`,
      and their tasks up to `ac_ids`, which only grow. */
  predicate SameShape(g0: seq<Json>, g1: seq<Json>) {
    && |g0| == |g1|
    && (forall i :: 0 <= i < |g0| ==> (g0[i].JObj? <==> g1[i].JObj?))
    && (forall i :: 0 <= i < |g0| && g0[i].JObj? ==> SameExcept(g0[i].fields, g1[i].fields, "tasks"))
    && (forall i :: 0 <= i < |g0| ==> |TaskItems(g0[i])| == |TaskItems(g1[i])|)
    && (forall i, j :: 0 <= i < |g0| && 0 <= j < |TaskItems(g0[i])| ==> SameTask(TaskItems(g0[i])[j], TaskItems(g1[i])[j]))
  }

  lemma AddIdSpec(t: Json, a: string, x: string)
    requires t.JObj?
    ensures AddId(t, a).JObj? && TaskIds(AddId(t, a)) == TaskIds(t) + [JStr(a)]
    ensures SameTask(t, AddId(t, a))
    ensures TaskCovers(AddId(t, a), x) <==> TaskCovers(t, x) || x == a
  {
    assert TaskIds(t) == IdList(t.fields);
  }

  lemma SameTaskRefl(t: Json)
    ensures SameTask(t, t)
  {
  }

  lemma SameTaskTrans(t0: Json, t1: Json, t2: Json)
    requires SameTask(t0, t1) && SameTask(t1, t2)
    ensures SameTask(t0, t2)
  {
    if t0.JObj? {
      var m0, m1, m2 := t0.fields, t1.fields, t2.fields;
      forall x | x in m0 && x != "ac_ids" ensures x in m2 && m0[x] == m2[x] {
        assert x in m1;
      }
    }
    assert TaskIds(t1)[..|TaskIds(t0)|] == TaskIds(t2)[..|TaskIds(t1)|][..|TaskIds(t0)|];
  }

  lemma SameExceptTrans(m0: Obj, m1: Obj, m2: Obj, k: string)
    requires SameExcept(m0, m1, k) && SameExcept(m1, m2, k)
    ensures SameExcept(m0, m2, k)
  {
  }

  lemma SameShapeRefl(g: seq<Json>)
    ensures SameShape(g, g)
  {
    forall i, j | 0 <= i < |g| && 0 <= j < |TaskItems(g[i])| ensures SameTask(TaskItems(g[i])[j], TaskItems(g[i])[j]) {
      SameTaskRefl(TaskItems(g[i])[j]);
    }
  }

  lemma SameShapeTrans(g0: seq<Json>, g1: seq<Json>, g2: seq<Json>)
    requires SameShape(g0, g1) && SameShape(g1, g2)
    ensures SameShape(g0, g2)
  {
    forall i | 0 <= i < |g0| && g0[i].JObj? ensures SameExcept(g0[i].fields, g2[i].fields, "tasks") {
      SameExceptTrans(g0[i].fields, g1[i].fields, g2[i].fields, "tasks");
    }
    forall i, j | 0 <= i < |g0| && 0 <= j < |TaskItems(g0[i])|
      ensures SameTask(TaskItems(g0[i])[j], TaskItems(g2[i])[j])
    {
      SameTaskTrans(TaskItems(g0[i])[j], TaskItems(g1[i])[j], TaskItems(g2[i])[j]);
    }
  }

  /** Group results of the same shape have dictionary tasks in the same places. */
  lemma SameShapeHasDict(g0: seq<Json>, g1: seq<Json>, i: nat)
    requires SameShape(g0, g1) && i < |g0|
    ensures HasDict(TaskItems(g0[i])) <==> HasDict(TaskItems(g1[i]))
  {
    if HasDict(TaskItems(g0[i])) {
      var j :| 0 <= j < |TaskItems(g0[i])| && TaskItems(g0[i])[j].JObj?;
      assert SameTask(TaskItems(g0[i])[j], TaskItems(g1[i])[j]);
    }
    if HasDict(TaskItems(g1[i])) {
      var j :| 0 <= j < |TaskItems(g1[i])| && TaskItems(g1[i])[j].JObj?;
      assert SameTask(TaskItems(g0[i])[j], TaskItems(g1[i])[j]);
    }
  }

  /** Tasks that agree but for `ac_ids` have the same text. */
  lemma SameTaskText(t0: Json, t1: Json)
    requires SameTask(t0, t1) && t0.JObj?
    ensures TaskText(t0.fields) == TaskText(t1.fields)
  {
    var m0, m1 := t0.fields, t1.fields;
    assert "title" in m0 <==> "title" in m1 by {
      assert "title" in m0 <==> "title" in m0.Keys - {"ac_ids"};
      assert "title" in m1 <==> "title" in m1.Keys - {"ac_ids"};
    }
    assert "description" in m0 <==> "description" in m1 by {
      assert "description" in m0 <==> "description" in m0.Keys - {"ac_ids"};
      assert "description" in m1 <==> "description" in m1.Keys - {"ac_ids"};
    }
    TaskTextSame(m0, m1);
  }

  /** Group results of the same shape give the same task texts, hence the same choice. */
  lemma SameShapeChosen(g0: seq<Json>, g1: seq<Json>, i: nat, acText: string)
    requires SameShape(g0, g1) && i < |g0| && HasDict(TaskItems(g0[i]))
    ensures HasDict(TaskItems(g1[i])) && ChosenTask(TaskItems(g0[i]), acText) == ChosenTask(TaskItems(g1[i]), acText)
  {
    SameShapeHasDict(g0, g1, i);
    var a, b := TaskItems(g0[i]), TaskItems(g1[i]);
    assert forall j :: 0 <= j < |a| ==> SameTask(a[j], b[j]);
    SameDictPositions(a, b);
    var ps := DictPositions(a);
    forall k | 0 <= k < |ps| ensures TaskText(DictTasks(a)[k]) == TaskText(DictTasks(b)[k]) {
      SameTaskText(a[ps[k]], b[ps[k]]);
    }
    ChooseBestSameTexts(DictTasks(a), DictTasks(b), acText);
  }

  lemma SameDictPositions(a: seq<Json>, b: seq<Json>)
    requires |a| == |b| && forall j :: 0 <= j < |a| ==> (a[j].JObj? <==> b[j].JObj?)
    ensures DictPositions(a) == DictPositions(b)
  {
  }

  /** Appending `a` to task `p` of group result `gi`. */
  function AttachAt(grs: seq<Json>, gi: nat, p: nat, a: string): (r: seq<Json>)
    requires gi < |grs| && p < |TaskItems(grs[gi])| && TaskItems(grs[gi])[p].JObj?
    ensures |r| == |grs|
  {
    var items := TaskItems(grs[gi]);
    grs[gi := SetTasks(grs[gi], items[p := AddId(items[p], a)])]
  }

  /** Append `a` to task `p` unless that task already names it. */
  function AttachWith(grs: seq<Json>, a: string, gi: nat, p: nat): (r: (seq<Json>, bool))
    requires gi < |grs| && p < |TaskItems(grs[gi])| && TaskItems(grs[gi])[p].JObj?
    ensures |r.0| == |grs|
  {
    if TaskCovers(TaskItems(grs[gi])[p], a) then (grs, false) else (AttachAt(grs, gi, p, a), true)
  }

  /** One step of the attach loop for a missing id whose target is group result `gi`:
      the new group results and whether an id was appended. */
  function AttachOne(grs: seq<Json>, a: string, gi: nat, acText: string): (r: (seq<Json>, bool))
    requires gi < |grs|
    ensures |r.0| == |grs|
  {
    var items := TaskItems(grs[gi]);
    if !HasDict(items) then (grs, false) else AttachWith(grs, a, gi, ChosenTask(items, acText))
  }

  /** Only task `p` of group result `gi` changes, by gaining `a`. */
  lemma AttachAtSpec(grs: seq<Json>, gi: nat, p: nat, a: string)
    requires gi < |grs| && p < |TaskItems(grs[gi])| && TaskItems(grs[gi])[p].JObj?
    ensures forall i :: 0 <= i < |grs| && i != gi ==> AttachAt(grs, gi, p, a)[i] == grs[i]
    ensures AttachAt(grs, gi, p, a)[gi].JObj?
    ensures SameExcept(grs[gi].fields, AttachAt(grs, gi, p, a)[gi].fields, "tasks")
    ensures TaskItems(AttachAt(grs, gi, p, a)[gi]) == TaskItems(grs[gi])[p := AddId(TaskItems(grs[gi])[p], a)]
  {
    var items := TaskItems(grs[gi]);
    var g := SetTasks(grs[gi], items[p := AddId(items[p], a)]);
    assert Get(g.fields, "tasks", JNull) == JArr(items[p := AddId(items[p], a)]);
  }

  lemma AttachAtShape(grs: seq<Json>, gi: nat, p: nat, a: string)
    requires gi < |grs| && p < |TaskItems(grs[gi])| && TaskItems(grs[gi])[p].JObj?
    ensures SameShape(grs, AttachAt(grs, gi, p, a))
  {
    var r := AttachAt(grs, gi, p, a);
    AttachAtSpec(grs, gi, p, a);
    forall i, j | 0 <= i < |grs| && 0 <= j < |TaskItems(grs[i])| ensures SameTask(TaskItems(grs[i])[j], TaskItems(r[i])[j]) {
      if i == gi && j == p {
        AddIdSpec(TaskItems(grs[i])[j], a, a);
      } else {
        SameTaskRefl(TaskItems(grs[i])[j]);
      }
    }
  }

  /** After appending, an id is covered exactly when it was or it is the appended one. */
  lemma AttachAtCoverage(grs: seq<Json>, gi: nat, p: nat, a: string, x: string)
    requires gi < |grs| && p < |TaskItems(grs[gi])| && TaskItems(grs[gi])[p].JObj?
    ensures Covered(AttachAt(grs, gi, p, a), x) <==> Covered(grs, x) || x == a
  {
    var r := AttachAt(grs, gi, p, a);
    var items := TaskItems(grs[gi]);
    AttachAtSpec(grs, gi, p, a);
    AddIdSpec(items[p], a, x);
    assert TaskItems(r[gi])[p] == AddId(items[p], a);
    if Covered(r, x) {
      var i, j :| 0 <= i < |r| && 0 <= j < |TaskItems(r[i])| && TaskCovers(TaskItems(r[i])[j], x);
      if i != gi || j != p {
        assert TaskItems(r[i])[j] == TaskItems(grs[i])[j];
      }
    }
    if Covered(grs, x) {
      var i, j :| 0 <= i < |grs| && 0 <= j < |TaskItems(grs[i])| && TaskCovers(TaskItems(grs[i])[j], x);
      if i != gi || j != p {
        assert TaskItems(r[i])[j] == TaskItems(grs[i])[j];
      }
    }
    if x == a {
      assert TaskCovers(TaskItems(r[gi])[p], x);
    }
  }

  /** Appending to a chosen task keeps the shape, covers `a` and nothing else, and reports
      a change exactly when `a` was not named by that task. */
  lemma AttachWithSpec(grs: seq<Json>, a: string, gi: nat, p: nat, x: string)
    requires gi < |grs| && p < |TaskItems(grs[gi])| && TaskItems(grs[gi])[p].JObj?
    ensures SameShape(grs, AttachWith(grs, a, gi, p).0)
    ensures Covered(AttachWith(grs, a, gi, p).0, x) <==> Covered(grs, x) || x == a
    ensures AttachWith(grs, a, gi, p).1 ==> !TaskCovers(TaskItems(grs[gi])[p], a)
    ensures !Covered(grs, a) ==> AttachWith(grs, a, gi, p).1
  {
    if TaskCovers(TaskItems(grs[gi])[p], a) {
      SameShapeRefl(grs);
      assert Covered(grs, a);
    } else {
      AttachAtShape(grs, gi, p, a);
      AttachAtCoverage(grs, gi, p, a, x);
    }
  }

  /** One attach step keeps the shape; it covers `a` when group result `gi` has a
      dictionary task and covers nothing else; it reports a change only when `a` was not
      covered, and does so whenever a dictionary task is there for an uncovered `a`. */
  lemma AttachOneSpec(grs: seq<Json>, a: string, gi: nat, acText: string, x: string)
    requires gi < |grs|
    ensures SameShape(grs, AttachOne(grs, a, gi, acText).0)
    ensures Covered(AttachOne(grs, a, gi, acText).0, x) <==> Covered(grs, x) || (x == a && HasDict(TaskItems(grs[gi])))
    ensures AttachOne(grs, a, gi, acText).1 ==> HasDict(TaskItems(grs[gi]))
    ensures !Covered(grs, a) ==> (AttachOne(grs, a, gi, acText).1 <==> HasDict(TaskItems(grs[gi])))
  {
    if !HasDict(TaskItems(grs[gi])) {
      SameShapeRefl(grs);
    } else {
      AttachWithSpec(grs, a, gi, ChosenTask(TaskItems(grs[gi]), acText), x);
    }
  }

  /** The attach loop's handling of one missing id. */
  function AttachStep(grs: seq<Json>, a: string, acToGroup: map<string, string>,
                      gidIndex: map<string, nat>, acMap: AcMap): (r: (seq<Json>, bool))
    requires IndexOk(gidIndex, |grs|)
    ensures |r.0| == |grs|
  {
    match AttachTarget(a, acToGroup, gidIndex, |grs|)
    case None => (grs, false)
    case Some(gi) => AttachOne(grs, a, gi, TextOf(acMap, a))
  }

  /** The attach loop over the missing ids, in order: the new group results and `changed`. */
  function AttachAll(grs: seq<Json>, missing: seq<string>, acToGroup: map<string, string>,
                     gidIndex: map<string, nat>, acMap: AcMap): (r: (seq<Json>, bool))
    requires IndexOk(gidIndex, |grs|)
    ensures |r.0| == |grs|
    decreases |missing|
  {
    if |missing| == 0 then (grs, false)
    else
      var step := AttachStep(grs, missing[0], acToGroup, gidIndex, acMap);
      var rest := AttachAll(step.0, missing[1..], acToGroup, gidIndex, acMap);
      (rest.0, step.1 || rest.1)
  }

  /** Task `j` of group result `i` is where `a` is attached: its target group result has a
      dictionary task and `_choose_best_task` picks the `j`-th entry. */
  predicate Goes(grs: seq<Json>, a: string, i: nat, j: nat, acToGroup: map<string, string>,
                 gidIndex: map<string, nat>, acMap: AcMap)
    requires IndexOk(gidIndex, |grs|)
  {
    && AttachTarget(a, acToGroup, gidIndex, |grs|) == Some(i)
    && HasDict(TaskItems(grs[i]))
    && ChosenTask(TaskItems(grs[i]), TextOf(acMap, a)) == j
  }

  /** Some task takes `a`: its target group result has a dictionary task. */
  predicate Attachable(grs: seq<Json>, a: string, acToGroup: map<string, string>, gidIndex: map<string, nat>)
    requires IndexOk(gidIndex, |grs|)
  {
    var t := AttachTarget(a, acToGroup, gidIndex, |grs|);
    t.Some? && HasDict(TaskItems(grs[t.value]))
  }

  /** The ids the loop appends to task `j` of group result `i`, in order. */
  function AddedAt(grs: seq<Json>, missing: seq<string>, i: nat, j: nat, acToGroup: map<string, string>,
                   gidIndex: map<string, nat>, acMap: AcMap): seq<Json>
    requires IndexOk(gidIndex, |grs|)
    decreases |missing|
  {
    if |missing| == 0 then []
    else
      (if Goes(grs, missing[0], i, j, acToGroup, gidIndex, acMap) then [JStr(missing[0])] else [])
      + AddedAt(grs, missing[1..], i, j, acToGroup, gidIndex, acMap)
  }

  lemma AttachStepSpec(grs: seq<Json>, a: string, acToGroup: map<string, string>,
                       gidIndex: map<string, nat>, acMap: AcMap, x: string)
    requires IndexOk(gidIndex, |grs|)
    ensures SameShape(grs, AttachStep(grs, a, acToGroup, gidIndex, acMap).0)
    ensures Covered(AttachStep(grs, a, acToGroup, gidIndex, acMap).0, x)
            <==> Covered(grs, x) || (x == a && Attachable(grs, a, acToGroup, gidIndex))
    ensures !Covered(grs, a) ==> (AttachStep(grs, a, acToGroup, gidIndex, acMap).1 <==> Attachable(grs, a, acToGroup, gidIndex))
  {
    match AttachTarget(a, acToGroup, gidIndex, |grs|)
    case None => SameShapeRefl(grs);
    case Some(gi) => AttachOneSpec(grs, a, gi, TextOf(acMap, a), x);
  }

  /** Group results of the same shape agree on which ids can be attached and where. */
  lemma SameShapeGoes(g0: seq<Json>, g1: seq<Json>, a: string, acToGroup: map<string, string>,
                      gidIndex: map<string, nat>, acMap: AcMap)
    requires SameShape(g0, g1) && IndexOk(gidIndex, |g0|)
    ensures Attachable(g0, a, acToGroup, gidIndex) <==> Attachable(g1, a, acToGroup, gidIndex)
    ensures forall i, j :: Goes(g0, a, i, j, acToGroup, gidIndex, acMap) <==> Goes(g1, a, i, j, acToGroup, gidIndex, acMap)
  {
    var t := AttachTarget(a, acToGroup, gidIndex, |g0|);
    if t.Some? {
      SameShapeHasDict(g0, g1, t.value);
      if HasDict(TaskItems(g0[t.value])) {
        SameShapeChosen(g0, g1, t.value, TextOf(acMap, a));
      }
    }
  }

  lemma {:induction false} SameShapeAddedAt(g0: seq<Json>, g1: seq<Json>, missing: seq<string>, i: nat, j: nat,
                                            acToGroup: map<string, string>, gidIndex: map<string, nat>, acMap: AcMap)
    requires SameShape(g0, g1) && IndexOk(gidIndex, |g0|)
    ensures AddedAt(g0, missing, i, j, acToGroup, gidIndex, acMap) == AddedAt(g1, missing, i, j, acToGroup, gidIndex, acMap)
    decreases |missing|
  {
    if |missing| > 0 {
      SameShapeGoes(g0, g1, missing[0], acToGroup, gidIndex, acMap);
      SameShapeAddedAt(g0, g1, missing[1..], i, j, acToGroup, gidIndex, acMap);
    }
  }

  /** The attach loop keeps the shape of the group results. */
  lemma {:induction false} AttachAllShape(grs: seq<Json>, missing: seq<string>, acToGroup: map<string, string>,
                                          gidIndex: map<string, nat>, acMap: AcMap)
    requires IndexOk(gidIndex, |grs|)
    ensures SameShape(grs, AttachAll(grs, missing, acToGroup, gidIndex, acMap).0)
    decreases |missing|
  {
    if |missing| == 0 {
      SameShapeRefl(grs);
    } else {
      var step := AttachStep(grs, missing[0], acToGroup, gidIndex, acMap);
      AttachStepSpec(grs, missing[0], acToGroup, gidIndex, acMap, missing[0]);
      AttachAllShape(step.0, missing[1..], acToGroup, gidIndex, acMap);
      SameShapeTrans(grs, step.0, AttachAll(grs, missing, acToGroup, gidIndex, acMap).0);
    }
  }

  /** After the attach loop an id is covered exactly when it was before, or it is a missing
      id with a dictionary task in its target group result. */
  lemma {:induction false} AttachAllCoverage(grs: seq<Json>, missing: seq<string>, acToGroup: map<string, string>,
                                             gidIndex: map<string, nat>, acMap: AcMap, x: string)
    requires IndexOk(gidIndex, |grs|)
    ensures Covered(AttachAll(grs, missing, acToGroup, gidIndex, acMap).0, x)
            <==> Covered(grs, x) || (x in missing && Attachable(grs, x, acToGroup, gidIndex))
    decreases |missing|
  {
    if |missing| > 0 {
      var step := AttachStep(grs, missing[0], acToGroup, gidIndex, acMap);
      AttachStepSpec(grs, missing[0], acToGroup, gidIndex, acMap, x);
      AttachAllCoverage(step.0, missing[1..], acToGroup, gidIndex, acMap, x);
      SameShapeGoes(grs, step.0, x, acToGroup, gidIndex, acMap);
      assert missing == [missing[0]] + missing[1..];
    }
  }

  /** When the missing ids are distinct and uncovered, `changed` says whether any of them
      could be attached. */
  lemma {:induction false} AttachAllChanged(grs: seq<Json>, missing: seq<string>, acToGroup: map<string, string>,
                                            gidIndex: map<string, nat>, acMap: AcMap)
    requires IndexOk(gidIndex, |grs|)
    requires Distinct(missing) && forall a :: a in missing ==> !Covered(grs, a)
    ensures AttachAll(grs, missing, acToGroup, gidIndex, acMap).1
            <==> exists a :: a in missing && Attachable(grs, a, acToGroup, gidIndex)
    decreases |missing|
  {
    if |missing| > 0 {
      var a := missing[0];
      var step := AttachStep(grs, a, acToGroup, gidIndex, acMap);
      AttachStepSpec(grs, a, acToGroup, gidIndex, acMap, a);
      StepKeepsUncovered(grs, missing, acToGroup, gidIndex, acMap);
      StepKeepsAttachable(grs, missing, acToGroup, gidIndex, acMap);
      AttachAllChanged(step.0, missing[1..], acToGroup, gidIndex, acMap);
      assert missing == [a] + missing[1..];
    }
  }

  /** One step appends `a` to the task it goes to, and to no other. */
  lemma AttachStepIds(grs: seq<Json>, a: string, acToGroup: map<string, string>,
                      gidIndex: map<string, nat>, acMap: AcMap, i: nat, j: nat)
    requires IndexOk(gidIndex, |grs|) && !Covered(grs, a)
    requires i < |grs| && j < |TaskItems(grs[i])|
    ensures SameShape(grs, AttachStep(grs, a, acToGroup, gidIndex, acMap).0)
    ensures TaskIds(TaskItems(AttachStep(grs, a, acToGroup, gidIndex, acMap).0[i])[j])
            == TaskIds(TaskItems(grs[i])[j]) + (if Goes(grs, a, i, j, acToGroup, gidIndex, acMap) then [JStr(a)] else [])
  {
    AttachStepSpec(grs, a, acToGroup, gidIndex, acMap, a);
    var t := AttachTarget(a, acToGroup, gidIndex, |grs|);
    if t.Some? && HasDict(TaskItems(grs[t.value])) {
      var gi := t.value;
      var items := TaskItems(grs[gi]);
      var p := ChosenTask(items, TextOf(acMap, a));
      assert !TaskCovers(items[p], a);
      AttachAtSpec(grs, gi, p, a);
      if i == gi && j == p {
        AddIdSpec(items[p], a, a);
      }
    }
  }

  /** The attach loop appends to every task exactly the ids that go to it, in the order of
      the missing ids, when those are distinct and uncovered. */
  lemma {:induction false} AttachAllIds(grs: seq<Json>, missing: seq<string>, acToGroup: map<string, string>,
                                        gidIndex: map<string, nat>, acMap: AcMap, i: nat, j: nat)
    requires IndexOk(gidIndex, |grs|)
    requires Distinct(missing) && forall a :: a in missing ==> !Covered(grs, a)
    requires i < |grs| && j < |TaskItems(grs[i])|
    ensures j < |TaskItems(AttachAll(grs, missing, acToGroup, gidIndex, acMap).0[i])|
    ensures TaskIds(TaskItems(AttachAll(grs, missing, acToGroup, gidIndex, acMap).0[i])[j])
            == TaskIds(TaskItems(grs[i])[j]) + AddedAt(grs, missing, i, j, acToGroup, gidIndex, acMap)
    decreases |missing|
  {
    AttachAllShape(grs, missing, acToGroup, gidIndex, acMap);
    if |missing| > 0 {
      var a := missing[0];
      var step := AttachStep(grs, a, acToGroup, gidIndex, acMap);
      AttachStepIds(grs, a, acToGroup, gidIndex, acMap, i, j);
      StepKeepsUncovered(grs, missing, acToGroup, gidIndex, acMap);
      AttachAllIds(step.0, missing[1..], acToGroup, gidIndex, acMap, i, j);
      SameShapeAddedAt(grs, step.0, missing[1..], i, j, acToGroup, gidIndex, acMap);
      var ids0 := TaskIds(TaskItems(grs[i])[j]);
      var head := if Goes(grs, a, i, j, acToGroup, gidIndex, acMap) then [JStr(a)] else [];
      var rest := AddedAt(grs, missing[1..], i, j, acToGroup, gidIndex, acMap);
      assert AddedAt(grs, missing, i, j, acToGroup, gidIndex, acMap) == head + rest;
      AppendAssoc(ids0, head, rest);
    }
  }

  /** After the first step the other missing ids are still distinct and uncovered. */
  lemma StepKeepsUncovered(grs: seq<Json>, missing: seq<string>, acToGroup: map<string, string>,
                           gidIndex: map<string, nat>, acMap: AcMap)
    requires IndexOk(gidIndex, |grs|) && |missing| > 0
    requires Distinct(missing) && forall a :: a in missing ==> !Covered(grs, a)
    ensures Distinct(missing[1..])
    ensures forall b :: b in missing[1..] ==> !Covered(AttachStep(grs, missing[0], acToGroup, gidIndex, acMap).0, b)
  {
    forall b | b in missing[1..] ensures !Covered(AttachStep(grs, missing[0], acToGroup, gidIndex, acMap).0, b) {
      AttachStepSpec(grs, missing[0], acToGroup, gidIndex, acMap, b);
    }
  }

  /** A step leaves every id as attachable as it was. */
  lemma StepKeepsAttachable(grs: seq<Json>, missing: seq<string>, acToGroup: map<string, string>,
                            gidIndex: map<string, nat>, acMap: AcMap)
    requires IndexOk(gidIndex, |grs|) && |missing| > 0
    ensures forall b :: b in missing[1..] ==>
              (Attachable(grs, b, acToGroup, gidIndex) <==> Attachable(AttachStep(grs, missing[0], acToGroup, gidIndex, acMap).0, b, acToGroup, gidIndex))
  {
    var step := AttachStep(grs, missing[0], acToGroup, gidIndex, acMap);
    AttachStepSpec(grs, missing[0], acToGroup, gidIndex, acMap, missing[0]);
    forall b | b in missing[1..] ensures Attachable(grs, b, acToGroup, gidIndex) <==> Attachable(step.0, b, acToGroup, gidIndex) {
      SameShapeGoes(grs, step.0, b, acToGroup, gidIndex, acMap);
    }
  }

  /** Where the ids are appended: `x` is appended to task `j` of group result `i` exactly
      when it is a missing id that goes there, so each id lands on one task at most. */
  lemma {:induction false} AddedAtSpec(grs: seq<Json>, missing: seq<string>, i: nat, j: nat,
                                       acToGroup: map<string, string>, gidIndex: map<string, nat>, acMap: AcMap, x: Json)
    requires IndexOk(gidIndex, |grs|)
    ensures x in AddedAt(grs, missing, i, j, acToGroup, gidIndex, acMap)
            <==> x.JStr? && x.s in missing && Goes(grs, x.s, i, j, acToGroup, gidIndex, acMap)
    decreases |missing|
  {
    if |missing| > 0 {
      var a := missing[0];
      AddedAtSpec(grs, missing[1..], i, j, acToGroup, gidIndex, acMap, x);
      assert x.JStr? && x.s in missing ==> x.s == a || x.s in missing[1..];
      if x == JStr(a) {
        assert x.s in missing;
      }
    }
  }

  // ---------------------------------------------------------------------------
  // create_task mode
  // ---------------------------------------------------------------------------

  /** `ac_to_group.get(a, "G00")`. */
  function BucketGid(a: string, acToGroup: map<string, string>): string {
    if a in acToGroup then acToGroup[a] else "G00"
  }

  /** `bucket`: group ids in order of first use, each with its missing ids. */
  type Buckets = seq<(string, seq<string>)>

  /** The position of the bucket for `gid`, or `|bs|` when there is none. */
  function FindBucket(bs: Buckets, gid: string): (k: nat)
    ensures k <= |bs| && (k < |bs| ==> bs[k].0 == gid)
    ensures forall m :: 0 <= m < k ==> bs[m].0 != gid
    decreases |bs|
  {
    if |bs| == 0 then 0 else if bs[0].0 == gid then 0 else 1 + FindBucket(bs[1..], gid)
  }

  /** `bucket.setdefault(gid, []).append(a)`. */
  function AddToBucket(bs: Buckets, gid: string, a: string): Buckets {
    var k := FindBucket(bs, gid);
    if k < |bs| then bs[k := (gid, bs[k].1 + [a])] else bs + [(gid, [a])]
  }

  /** The bucket loop over the missing ids. */
  function Bucketed(missing: seq<string>, acToGroup: map<string, string>): Buckets
    decreases |missing|
  {
    if |missing| == 0 then []
    else
      var n := |missing| - 1;
      AddToBucket(Bucketed(missing[..n], acToGroup), BucketGid(missing[n], acToGroup), missing[n])
  }

  /** The missing ids whose group id is `gid`, in order. */
  function Members(missing: seq<string>, gid: string, acToGroup: map<string, string>): (r: seq<string>)
    ensures forall a :: a in r <==> a in missing && BucketGid(a, acToGroup) == gid
    decreases |missing|
  {
    if |missing| == 0 then []
    else
      var n := |missing| - 1;
      assert missing == missing[..n] + [missing[n]];
      Members(missing[..n], gid, acToGroup) + (if BucketGid(missing[n], acToGroup) == gid then [missing[n]] else [])
  }

  /** No group id has two buckets. */
  predicate GidsDistinct(bs: Buckets) {
    forall k, m :: 0 <= k < m < |bs| ==> bs[k].0 != bs[m].0
  }

  /** Every id of `missing` has the bucket of its group id. */
  predicate AllBucketed(bs: Buckets, missing: seq<string>, acToGroup: map<string, string>) {
    forall a :: a in missing ==> exists k :: 0 <= k < |bs| && bs[k].0 == BucketGid(a, acToGroup)
  }

  /** Appending to a bucket keeps the group ids distinct and adds the bucket for `gid`
      when it is new. */
  lemma AddToBucketKeys(bs: Buckets, gid: string, a: string)
    requires GidsDistinct(bs)
    ensures var bs' := AddToBucket(bs, gid, a);
      && |bs'| == (if FindBucket(bs, gid) < |bs| then |bs| else |bs| + 1)
      && (forall k :: 0 <= k < |bs| ==> bs'[k].0 == bs[k].0)
      && bs'[FindBucket(bs, gid)].0 == gid
      && GidsDistinct(bs')
  {
  }

  lemma MembersNone(missing: seq<string>, gid: string, acToGroup: map<string, string>)
    requires forall b :: b in missing ==> BucketGid(b, acToGroup) != gid
    ensures Members(missing, gid, acToGroup) == []
  {
  }

  /** One bucket per group id in use, none twice. */
  lemma {:induction false} BucketedKeys(missing: seq<string>, acToGroup: map<string, string>)
    ensures GidsDistinct(Bucketed(missing, acToGroup))
    ensures AllBucketed(Bucketed(missing, acToGroup), missing, acToGroup)
    decreases |missing|
  {
    if |missing| > 0 {
      var n := |missing| - 1;
      var pre, a := missing[..n], missing[n];
      BucketedKeys(pre, acToGroup);
      assert missing == pre + [a];
      BucketKeysStep(Bucketed(pre, acToGroup), pre, a, acToGroup);
    }
  }

  /** Adding `a` keeps the group ids distinct and gives every id of `pre + [a]` a bucket. */
  lemma BucketKeysStep(bs: Buckets, pre: seq<string>, a: string, acToGroup: map<string, string>)
    requires GidsDistinct(bs) && AllBucketed(bs, pre, acToGroup)
    ensures GidsDistinct(AddToBucket(bs, BucketGid(a, acToGroup), a))
    ensures AllBucketed(AddToBucket(bs, BucketGid(a, acToGroup), a), pre + [a], acToGroup)
  {
    var g := BucketGid(a, acToGroup);
    var bs' := AddToBucket(bs, g, a);
    AddToBucketKeys(bs, g, a);
    forall b | b in pre + [a] ensures exists k :: 0 <= k < |bs'| && bs'[k].0 == BucketGid(b, acToGroup) {
      if b != a {
        var k :| 0 <= k < |bs| && bs[k].0 == BucketGid(b, acToGroup);
        assert bs'[k].0 == bs[k].0;
      } else {
        assert bs'[FindBucket(bs, g)].0 == g;
      }
    }
  }

  /** Each bucket holds exactly the ids of `missing` of its group, in their order, and at
      least one. */
  predicate MembersOk(bs: Buckets, missing: seq<string>, acToGroup: map<string, string>) {
    forall k :: 0 <= k < |bs| ==> bs[k].1 == Members(missing, bs[k].0, acToGroup) && |bs[k].1| > 0
  }

  /** Each bucket holds exactly the missing ids of its group, in their order. */
  lemma {:induction false} BucketedMembers(missing: seq<string>, acToGroup: map<string, string>)
    ensures MembersOk(Bucketed(missing, acToGroup), missing, acToGroup)
    decreases |missing|
  {
    if |missing| > 0 {
      var n := |missing| - 1;
      var pre, a := missing[..n], missing[n];
      BucketedMembers(pre, acToGroup);
      BucketedKeys(pre, acToGroup);
      assert missing == pre + [a];
      BucketStepAll(Bucketed(pre, acToGroup), pre, a, acToGroup);
    }
  }

  lemma BucketStepAll(bs: Buckets, pre: seq<string>, a: string, acToGroup: map<string, string>)
    requires GidsDistinct(bs)
    requires MembersOk(bs, pre, acToGroup)
    requires AllBucketed(bs, pre, acToGroup)
    ensures MembersOk(AddToBucket(bs, BucketGid(a, acToGroup), a), pre + [a], acToGroup)
  {
    var bs' := AddToBucket(bs, BucketGid(a, acToGroup), a);
    forall k | 0 <= k < |bs'| ensures bs'[k].1 == Members(pre + [a], bs'[k].0, acToGroup) && |bs'[k].1| > 0 {
      BucketStep(bs, pre, a, acToGroup, k);
    }
  }

  /** Adding `a` to the buckets of `pre` gives the buckets of `pre + [a]`. */
  lemma BucketStep(bs: Buckets, pre: seq<string>, a: string, acToGroup: map<string, string>, k: nat)
    requires GidsDistinct(bs)
    requires MembersOk(bs, pre, acToGroup)
    requires AllBucketed(bs, pre, acToGroup)
    requires k < |AddToBucket(bs, BucketGid(a, acToGroup), a)|
    ensures AddToBucket(bs, BucketGid(a, acToGroup), a)[k].1
            == Members(pre + [a], AddToBucket(bs, BucketGid(a, acToGroup), a)[k].0, acToGroup)
    ensures |AddToBucket(bs, BucketGid(a, acToGroup), a)[k].1| > 0
  {
    var g := BucketGid(a, acToGroup);
    var bs' := AddToBucket(bs, g, a);
    var k0 := FindBucket(bs, g);
    var gid := bs'[k].0;
    assert (pre + [a])[..|pre|] == pre;
    assert Members(pre + [a], gid, acToGroup) == Members(pre, gid, acToGroup) + (if g == gid then [a] else []);
    if k == k0 && k0 < |bs| {
      assert bs'[k] == (g, bs[k].1 + [a]);
    } else if k < |bs| {
      assert bs'[k] == bs[k] && gid != g;
    } else {
      assert bs'[k] == (g, [a]);
      forall b | b in pre ensures BucketGid(b, acToGroup) != g {
        var m :| 0 <= m < |bs| && bs[m].0 == BucketGid(b, acToGroup);
      }
      MembersNone(pre, g, acToGroup);
    }
  }

  /** The fields of the task appended for one bucket, but for its `ac_ids`. */
  const TRACE_TASK_TEMPLATE: Obj := map[
    "title" := JStr("Traceability: cover unassigned ACs"),
    "category" := JStr("Task"),
    "subcategory" := JStr("[Doc]"),
    "status" := JStr("Todo"),
    "priority" := JStr("Low"),
    "estimate_hours" := JInt(1),
    "related_task_titles" := JArr([]),
    "description" := JStr("Auto-added to ensure every AC is traceable to at least one task.")]

  /** The appended task: the template with the bucket's ids as `ac_ids`. */
  function TraceTask(base: Obj, acs: seq<string>): Obj {
    base["ac_ids" := StrArr(acs)]
  }

  /** The new task names exactly the ids of its bucket. */
  lemma TraceTaskCovers(base: Obj, acs: seq<string>, x: string)
    ensures TaskIds(JObj(TraceTask(base, acs))) == StrArr(acs).items
    ensures TaskCovers(JObj(TraceTask(base, acs)), x) <==> x in acs
  {
    var t := JObj(TraceTask(base, acs));
    assert Get(t.fields, "ac_ids", JNull) == StrArr(acs);
    if x in acs {
      var k :| 0 <= k < |acs| && acs[k] == x;
      assert StrArr(acs).items[k] == JStr(x);
    }
  }

  /** Every id of `gid_to_index` points at a dictionary group result. */
  predicate IndexDicts(gidIndex: map<string, nat>, grs: seq<Json>) {
    forall g :: g in gidIndex ==> gidIndex[g] < |grs| && grs[gidIndex[g]].JObj?
  }

  /** One bucket: append its task to the group result of its group id, if there is one. */
  function CreateOne(grs: seq<Json>, gid: string, acs: seq<string>, gidIndex: map<string, nat>, base: Obj): (r: (seq<Json>, bool))
    requires IndexDicts(gidIndex, grs)
    ensures |r.0| == |grs|
  {
    if gid !in gidIndex then (grs, false)
    else
      var gi := gidIndex[gid];
      (grs[gi := SetTasks(grs[gi], TaskItems(grs[gi]) + [JObj(TraceTask(base, acs))])], true)
  }

  /** The loop over the buckets, in order. */
  function CreateAll(grs: seq<Json>, bs: Buckets, gidIndex: map<string, nat>, base: Obj): (r: (seq<Json>, bool))
    requires IndexDicts(gidIndex, grs)
    ensures |r.0| == |grs|
    decreases |bs|
  {
    if |bs| == 0 then (grs, false)
    else
      var step := CreateOne(grs, bs[0].0, bs[0].1, gidIndex, base);
      var rest := CreateAll(step.0, bs[1..], gidIndex, base);
      (rest.0, step.1 || rest.1)
  }

  /** The tasks the bucket loop appends to group result `i`, in order. */
  function Appended(bs: Buckets, i: nat, gidIndex: map<string, nat>, base: Obj): seq<Json>
    decreases |bs|
  {
    if |bs| == 0 then []
    else
      (if bs[0].0 in gidIndex && gidIndex[bs[0].0] == i then [JObj(TraceTask(base, bs[0].1))] else [])
      + Appended(bs[1..], i, gidIndex, base)
  }

  /** One bucket changes only the `tasks` of its group result, by appending its task. */
  lemma CreateOneSpec(grs: seq<Json>, gid: string, acs: seq<string>, gidIndex: map<string, nat>, base: Obj, i: nat)
    requires IndexDicts(gidIndex, grs) && i < |grs|
    ensures IndexDicts(gidIndex, CreateOne(grs, gid, acs, gidIndex, base).0)
    ensures CreateOne(grs, gid, acs, gidIndex, base).0[i].JObj? <==> grs[i].JObj?
    ensures grs[i].JObj? ==> SameExcept(grs[i].fields, CreateOne(grs, gid, acs, gidIndex, base).0[i].fields, "tasks")
    ensures TaskItems(CreateOne(grs, gid, acs, gidIndex, base).0[i])
            == TaskItems(grs[i]) + (if gid in gidIndex && gidIndex[gid] == i then [JObj(TraceTask(base, acs))] else [])
    ensures CreateOne(grs, gid, acs, gidIndex, base).1 <==> gid in gidIndex
  {
    if gid in gidIndex && gidIndex[gid] == i {
      var items := TaskItems(grs[i]) + [JObj(TraceTask(base, acs))];
      assert Get(SetTasks(grs[i], items).fields, "tasks", JNull) == JArr(items);
    }
  }

  /** The bucket loop appends to each group result exactly the tasks of the buckets that
      resolve to it, leaves every other key alone, and reports a change exactly when some
      bucket resolves. */
  lemma {:induction false} CreateAllSpec(grs: seq<Json>, bs: Buckets, gidIndex: map<string, nat>, base: Obj, i: nat)
    requires IndexDicts(gidIndex, grs) && i < |grs|
    ensures CreateAll(grs, bs, gidIndex, base).0[i].JObj? <==> grs[i].JObj?
    ensures grs[i].JObj? ==> SameExcept(grs[i].fields, CreateAll(grs, bs, gidIndex, base).0[i].fields, "tasks")
    ensures TaskItems(CreateAll(grs, bs, gidIndex, base).0[i]) == TaskItems(grs[i]) + Appended(bs, i, gidIndex, base)
    decreases |bs|
  {
    if |bs| > 0 {
      var step := CreateOne(grs, bs[0].0, bs[0].1, gidIndex, base);
      var r := CreateAll(step.0, bs[1..], gidIndex, base).0;
      assert CreateAll(grs, bs, gidIndex, base).0 == r;
      CreateOneSpec(grs, bs[0].0, bs[0].1, gidIndex, base, i);
      CreateAllSpec(step.0, bs[1..], gidIndex, base, i);
      if grs[i].JObj? {
        SameExceptTrans(grs[i].fields, step.0[i].fields, r[i].fields, "tasks");
      }
      var head := if bs[0].0 in gidIndex && gidIndex[bs[0].0] == i then [JObj(TraceTask(base, bs[0].1))] else [];
      assert Appended(bs, i, gidIndex, base) == head + Appended(bs[1..], i, gidIndex, base);
      AppendAssoc(TaskItems(grs[i]), head, Appended(bs[1..], i, gidIndex, base));
    }
  }

  lemma {:induction false} AppendedSpec(bs: Buckets, i: nat, gidIndex: map<string, nat>, base: Obj, t: Json)
    ensures t in Appended(bs, i, gidIndex, base)
            <==> exists k :: 0 <= k < |bs| && bs[k].0 in gidIndex && gidIndex[bs[k].0] == i && t == JObj(TraceTask(base, bs[k].1))
    decreases |bs|
  {
    if |bs| > 0 {
      AppendedSpec(bs[1..], i, gidIndex, base, t);
      if exists k :: 0 <= k < |bs| && bs[k].0 in gidIndex && gidIndex[bs[k].0] == i && t == JObj(TraceTask(base, bs[k].1)) {
        var k :| 0 <= k < |bs| && bs[k].0 in gidIndex && gidIndex[bs[k].0] == i && t == JObj(TraceTask(base, bs[k].1));
        if k > 0 {
          assert bs[1..][k - 1] == bs[k];
        }
      }
    }
  }

  lemma {:induction false} AppendedNone(bs: Buckets, i: nat, gidIndex: map<string, nat>, base: Obj)
    requires forall k :: 0 <= k < |bs| ==> !(bs[k].0 in gidIndex && gidIndex[bs[k].0] == i)
    ensures Appended(bs, i, gidIndex, base) == []
    decreases |bs|
  {
    if |bs| > 0 {
      assert forall k :: 0 <= k < |bs[1..]| ==> bs[1..][k] == bs[k + 1];
      AppendedNone(bs[1..], i, gidIndex, base);
    }
  }

  /** With distinct bucket ids and distinct targets, a group result gains one task at most. */
  lemma {:induction false} AppendedAtMostOne(bs: Buckets, i: nat, gidIndex: map<string, nat>, base: Obj)
    requires GidsDistinct(bs)
    requires forall g1, g2 :: g1 in gidIndex && g2 in gidIndex && gidIndex[g1] == gidIndex[g2] ==> g1 == g2
    ensures |Appended(bs, i, gidIndex, base)| <= 1
    decreases |bs|
  {
    if |bs| > 0 {
      AppendedAtMostOne(bs[1..], i, gidIndex, base);
      if bs[0].0 in gidIndex && gidIndex[bs[0].0] == i {
        forall k | 0 <= k < |bs[1..]| ensures !(bs[1..][k].0 in gidIndex && gidIndex[bs[1..][k].0] == i) {
          assert bs[1..][k] == bs[k + 1];
        }
        AppendedNone(bs[1..], i, gidIndex, base);
      }
    }
  }

  /** Some task among `items` names `x`. */
  predicate CoveredIn(items: seq<Json>, x: string) {
    exists j :: 0 <= j < |items| && TaskCovers(items[j], x)
  }

  lemma CoveredByGroup(grs: seq<Json>, x: string)
    ensures Covered(grs, x) <==> exists i :: 0 <= i < |grs| && CoveredIn(TaskItems(grs[i]), x)
  {
  }

  lemma CoveredInAppend(a: seq<Json>, b: seq<Json>, x: string)
    ensures CoveredIn(a + b, x) <==> CoveredIn(a, x) || CoveredIn(b, x)
  {
    if CoveredIn(a + b, x) {
      var j :| 0 <= j < |a + b| && TaskCovers((a + b)[j], x);
      if j >= |a| {
        assert (a + b)[j] == b[j - |a|];
      }
    }
    if CoveredIn(a, x) {
      var j :| 0 <= j < |a| && TaskCovers(a[j], x);
      assert (a + b)[j] == a[j];
    }
    if CoveredIn(b, x) {
      var j :| 0 <= j < |b| && TaskCovers(b[j], x);
      assert (a + b)[|a| + j] == b[j];
    }
  }

  /** The tasks appended to group result `i` name exactly the ids of the buckets that
      resolve to it. */
  lemma {:induction false} AppendedCovers(bs: Buckets, i: nat, gidIndex: map<string, nat>, base: Obj, x: string)
    ensures CoveredIn(Appended(bs, i, gidIndex, base), x)
            <==> exists k :: 0 <= k < |bs| && bs[k].0 in gidIndex && gidIndex[bs[k].0] == i && x in bs[k].1
    decreases |bs|
  {
    if |bs| > 0 {
      var head := if bs[0].0 in gidIndex && gidIndex[bs[0].0] == i then [JObj(TraceTask(base, bs[0].1))] else [];
      AppendedCovers(bs[1..], i, gidIndex, base, x);
      CoveredInAppend(head, Appended(bs[1..], i, gidIndex, base), x);
      TraceTaskCovers(base, bs[0].1, x);
      if CoveredIn(head, x) {
        assert TaskCovers(head[0], x);
      }
      assert forall k :: 0 <= k < |bs[1..]| ==> bs[1..][k] == bs[k + 1];
      if exists k :: 0 <= k < |bs| && bs[k].0 in gidIndex && gidIndex[bs[k].0] == i && x in bs[k].1 {
        var k :| 0 <= k < |bs| && bs[k].0 in gidIndex && gidIndex[bs[k].0] == i && x in bs[k].1;
        if k == 0 {
          assert TaskCovers(head[0], x);
        } else {
          assert bs[1..][k - 1] == bs[k];
        }
      }
    }
  }

  /** After the bucket loop an id is covered exactly when it was before, or it is in a
      bucket whose group id has a group result. */
  lemma CreateAllCoverage(grs: seq<Json>, bs: Buckets, gidIndex: map<string, nat>, base: Obj, x: string)
    requires IndexDicts(gidIndex, grs)
    ensures Covered(CreateAll(grs, bs, gidIndex, base).0, x)
            <==> Covered(grs, x) || exists k :: 0 <= k < |bs| && bs[k].0 in gidIndex && x in bs[k].1
  {
    var r := CreateAll(grs, bs, gidIndex, base).0;
    CoveredByGroup(r, x);
    CoveredByGroup(grs, x);
    forall i | 0 <= i < |grs|
      ensures CoveredIn(TaskItems(r[i]), x)
              <==> (|| CoveredIn(TaskItems(grs[i]), x)
                    || exists k :: 0 <= k < |bs| && bs[k].0 in gidIndex && gidIndex[bs[k].0] == i && x in bs[k].1)
    {
      CreateAllSpec(grs, bs, gidIndex, base, i);
      CoveredInAppend(TaskItems(grs[i]), Appended(bs, i, gidIndex, base), x);
      AppendedCovers(bs, i, gidIndex, base, x);
    }
    if exists k :: 0 <= k < |bs| && bs[k].0 in gidIndex && x in bs[k].1 {
      var k :| 0 <= k < |bs| && bs[k].0 in gidIndex && x in bs[k].1;
      var i := gidIndex[bs[k].0];
      assert CoveredIn(TaskItems(r[i]), x);
    }
  }

  // ---------------------------------------------------------------------------
  // enforce_ac_traceability
  // ---------------------------------------------------------------------------

  /** The returned report: `missing_ac_ids`, `mode`, `changed`. */
  datatype TraceReport = TraceReport(missing: seq<string>, mode: string, changed: bool)

  /** The report with the group results as the call leaves them. */
  datatype Enforced = Enforced(report: TraceReport, groupResults: seq<Json>)

  const NOT_ITERABLE: string := "TypeError: object is not iterable"

  const CREATE_TASK: string := "create_task"

  /** `enforce_ac_traceability(ac_map=, grouping=, group_results=, mode=)`; any mode other
      than `create_task` attaches. */
  function EnforceAcTraceability(acMap: AcMap, grouping: Json, grs: seq<Json>, mode: string): Result<Enforced> {
    if ResultsRaise(grs) then Err(NOT_ITERABLE)
    else
      var missing := MissingIds(acMap, grs);
      if |missing| == 0 then Ok(Enforced(TraceReport([], mode, false), grs))
      else if GroupingRaises(grouping) then Err(NOT_ITERABLE)
      else
        var acToGroup := AcToGroup(GroupsOf(grouping));
        var gidIndex := GidIndex(grs);
        var out := if mode == CREATE_TASK then CreateAll(grs, Bucketed(missing, acToGroup), gidIndex, TRACE_TASK_TEMPLATE)
                   else AttachAll(grs, missing, acToGroup, gidIndex, acMap);
        Ok(Enforced(TraceReport(missing, mode, out.1), out.0))
  }

  /** The call fails exactly when the group results cannot be iterated, or when some id is
      missing and the grouping cannot be iterated; otherwise it reports the missing ids and
      the mode, and with nothing missing it leaves the group results alone. */
  lemma EnforceReport(acMap: AcMap, grouping: Json, grs: seq<Json>, mode: string)
    ensures EnforceAcTraceability(acMap, grouping, grs, mode).Err?
            <==> ResultsRaise(grs) || (|MissingIds(acMap, grs)| > 0 && GroupingRaises(grouping))
    ensures EnforceAcTraceability(acMap, grouping, grs, mode).Ok? ==>
              var e := EnforceAcTraceability(acMap, grouping, grs, mode).value;
              && e.report.missing == MissingIds(acMap, grs)
              && e.report.mode == mode
              && |e.groupResults| == |grs|
              && (|MissingIds(acMap, grs)| == 0 ==> e.groupResults == grs && !e.report.changed)
  {
  }

  /** Some bucket that resolves holds `x` exactly when `x` is missing and its group id
      resolves. */
  lemma BucketsResolveId(missing: seq<string>, acToGroup: map<string, string>, gidIndex: map<string, nat>, x: string)
    ensures (exists k :: 0 <= k < |Bucketed(missing, acToGroup)| && Bucketed(missing, acToGroup)[k].0 in gidIndex && x in Bucketed(missing, acToGroup)[k].1)
            <==> x in missing && BucketGid(x, acToGroup) in gidIndex
  {
    var bs := Bucketed(missing, acToGroup);
    BucketedMembers(missing, acToGroup);
    if x in missing && BucketGid(x, acToGroup) in gidIndex {
      BucketedKeys(missing, acToGroup);
      var k :| 0 <= k < |bs| && bs[k].0 == BucketGid(x, acToGroup);
      assert x in Members(missing, bs[k].0, acToGroup);
    }
  }

  lemma BucketOfMissing(missing: seq<string>, acToGroup: map<string, string>, a: string)
    requires a in missing
    ensures exists k :: 0 <= k < |Bucketed(missing, acToGroup)| && Bucketed(missing, acToGroup)[k].0 == BucketGid(a, acToGroup)
  {
    BucketedKeys(missing, acToGroup);
  }

  lemma MissingOfBucket(missing: seq<string>, acToGroup: map<string, string>, k: nat) returns (a: string)
    requires k < |Bucketed(missing, acToGroup)|
    ensures a in missing && BucketGid(a, acToGroup) == Bucketed(missing, acToGroup)[k].0
  {
    BucketedMembers(missing, acToGroup);
    var bs := Bucketed(missing, acToGroup);
    a := bs[k].1[0];
    assert a in Members(missing, bs[k].0, acToGroup);
  }

  /** Some bucket resolves exactly when some missing id's group id resolves. */
  lemma BucketsResolveAny(missing: seq<string>, acToGroup: map<string, string>, gidIndex: map<string, nat>)
    ensures (exists k :: 0 <= k < |Bucketed(missing, acToGroup)| && Bucketed(missing, acToGroup)[k].0 in gidIndex)
            <==> exists a :: a in missing && BucketGid(a, acToGroup) in gidIndex
  {
    var bs := Bucketed(missing, acToGroup);
    if exists a :: a in missing && BucketGid(a, acToGroup) in gidIndex {
      var a :| a in missing && BucketGid(a, acToGroup) in gidIndex;
      BucketOfMissing(missing, acToGroup, a);
      var k :| 0 <= k < |bs| && bs[k].0 == BucketGid(a, acToGroup);
      assert bs[k].0 in gidIndex;
    }
    if exists k :: 0 <= k < |bs| && bs[k].0 in gidIndex {
      var k :| 0 <= k < |bs| && bs[k].0 in gidIndex;
      var a := MissingOfBucket(missing, acToGroup, k);
      assert a in missing && BucketGid(a, acToGroup) in gidIndex;
    }
  }

  /** The bucket loop over the buckets of the missing ids covers exactly the missing ids
      whose group id names a group result, and reports a change exactly when there is one. */
  lemma CreateMode(grs: seq<Json>, missing: seq<string>, acToGroup: map<string, string>,
                   gidIndex: map<string, nat>, base: Obj, x: string)
    requires IndexDicts(gidIndex, grs)
    ensures Covered(CreateAll(grs, Bucketed(missing, acToGroup), gidIndex, base).0, x)
            <==> Covered(grs, x) || (x in missing && BucketGid(x, acToGroup) in gidIndex)
    ensures CreateAll(grs, Bucketed(missing, acToGroup), gidIndex, base).1
            <==> exists a :: a in missing && BucketGid(a, acToGroup) in gidIndex
  {
    var bs := Bucketed(missing, acToGroup);
    CreateAllCoverage(grs, bs, gidIndex, base, x);
    BucketsResolveId(missing, acToGroup, gidIndex, x);
    CreateAllChanged(grs, bs, gidIndex, base);
    BucketsResolveAny(missing, acToGroup, gidIndex);
  }

  /** In `create_task` mode an id ends up covered exactly when it was, or it is missing and
      its group id (`G00` when it has none) names a group result; the call reports a change
      exactly when some missing id is in that case. */
  lemma EnforceCreateCoverage(acMap: AcMap, grouping: Json, grs: seq<Json>, x: string)
    requires EnforceAcTraceability(acMap, grouping, grs, CREATE_TASK).Ok?
    ensures var e := EnforceAcTraceability(acMap, grouping, grs, CREATE_TASK).value;
            var acToGroup := AcToGroup(GroupsOf(grouping));
            && (Covered(e.groupResults, x)
                <==> Covered(grs, x) || (x in MissingIds(acMap, grs) && BucketGid(x, acToGroup) in GidIndex(grs)))
            && (e.report.changed
                <==> exists a :: a in MissingIds(acMap, grs) && BucketGid(a, acToGroup) in GidIndex(grs))
  {
    var missing := MissingIds(acMap, grs);
    if |missing| > 0 {
      CreateMode(grs, missing, AcToGroup(GroupsOf(grouping)), GidIndex(grs), TRACE_TASK_TEMPLATE, x);
    }
  }

  /** The bucket loop reports a change exactly when some bucket resolves. */
  lemma {:induction false} CreateAllChanged(grs: seq<Json>, bs: Buckets, gidIndex: map<string, nat>, base: Obj)
    requires IndexDicts(gidIndex, grs)
    ensures CreateAll(grs, bs, gidIndex, base).1 <==> exists k :: 0 <= k < |bs| && bs[k].0 in gidIndex
    decreases |bs|
  {
    if |bs| > 0 {
      var step := CreateOne(grs, bs[0].0, bs[0].1, gidIndex, base);
      CreateAllChanged(step.0, bs[1..], gidIndex, base);
      assert forall k :: 1 <= k < |bs| ==> bs[k] == bs[1..][k - 1];
      if exists k :: 0 <= k < |bs[1..]| && bs[1..][k].0 in gidIndex {
        var k :| 0 <= k < |bs[1..]| && bs[1..][k].0 in gidIndex;
        assert bs[k + 1].0 in gidIndex;
      }
    }
  }

  /** In attach mode an id ends up covered exactly when it was, or it is missing and its
      target group result has a dictionary task; the call reports a change exactly when
      some missing id is in that case; each missing id is appended to the one task chosen
      for it, and nothing else of the group results changes. */
  lemma EnforceAttachCoverage(acMap: AcMap, grouping: Json, grs: seq<Json>, mode: string, x: string)
    requires mode != CREATE_TASK && EnforceAcTraceability(acMap, grouping, grs, mode).Ok?
    ensures var e := EnforceAcTraceability(acMap, grouping, grs, mode).value;
            var acToGroup, gidIndex := AcToGroup(GroupsOf(grouping)), GidIndex(grs);
            && SameShape(grs, e.groupResults)
            && (Covered(e.groupResults, x)
                <==> Covered(grs, x) || (x in MissingIds(acMap, grs) && Attachable(grs, x, acToGroup, gidIndex)))
            && (e.report.changed
                <==> exists a :: a in MissingIds(acMap, grs) && Attachable(grs, a, acToGroup, gidIndex))
  {
    var missing := MissingIds(acMap, grs);
    var acToGroup, gidIndex := AcToGroup(GroupsOf(grouping)), GidIndex(grs);
    MissingSpec(acMap, grs);
    if |missing| > 0 {
      AttachAllShape(grs, missing, acToGroup, gidIndex, acMap);
      AttachAllCoverage(grs, missing, acToGroup, gidIndex, acMap, x);
      AttachAllChanged(grs, missing, acToGroup, gidIndex, acMap);
    } else {
      SameShapeRefl(grs);
    }
  }

  /** In attach mode, when there is a group result and every group result has a dictionary
      task, every AC id is covered afterwards. */
  lemma EnforceAttachCoversAll(acMap: AcMap, grouping: Json, grs: seq<Json>, mode: string, x: string)
    requires mode != CREATE_TASK && EnforceAcTraceability(acMap, grouping, grs, mode).Ok?
    requires |grs| > 0 && forall i :: 0 <= i < |grs| ==> HasDict(TaskItems(grs[i]))
    requires x in Keys(acMap)
    ensures Covered(EnforceAcTraceability(acMap, grouping, grs, mode).value.groupResults, x)
  {
    EnforceAttachCoverage(acMap, grouping, grs, mode, x);
    MissingSpec(acMap, grs);
  }
}
