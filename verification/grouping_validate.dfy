/**
 * The strong validator for grouping proposals (`validate_grouping` in
 * `grouping/schema.py`). It returns an ok flag and a list of issue strings;
 * issues that start with `warning:` do not make the proposal fail. Where the
 * Python code raises (it calls `.get` on a group that is not a dictionary, or
 * looks up an unhashable id in the AC map) the model returns `Err`.
 */
module GroupingValidate {
  import opened Wrappers
  import opened Strings
  import opened Seqs
  import opened PyJson
  import opened AcMaps
  import opened GroupingSchema

  /** The keyword arguments of `validate_grouping`. */
  datatype Limits = Limits(
    maxPerGroup: int,
    targetMin: int,
    targetMax: int,
    maxGroups: int,
    minGroupSize: int,
    requireLogSplit: bool)

  const DEFAULT_LIMITS: Limits := Limits(
    DEFAULT_MAX_AC_PER_GROUP, DEFAULT_TARGET_GROUPS_MIN, DEFAULT_TARGET_GROUPS_MAX,
    DEFAULT_MAX_GROUPS, DEFAULT_MIN_GROUP_SIZE, true)

  // ---------------------------------------------------------------------------
  // Issues
  // ---------------------------------------------------------------------------

  /** One issue; `Text` renders it as the validator's message. */
  datatype Issue =
    | NotAnObject
    | GroupsNotNonEmptyList
    | TooManyGroups(count: nat, maxGroups: int)
    | GroupNotObject(pos: nat)
    | GroupIdMissing(pos: nat)
    | DuplicateGroupId(gid: string)
    | AcIdsNotStrList(pos: nat)
    | GroupTooLarge(pos: nat, size: nat, maxPerGroup: int)
    | MissingAcs(ids: seq<string>)
    | UnknownAcs(ids: seq<string>)
    | DuplicateAssignment(ids: seq<string>)
    | OrphanGroups(minGroupSize: int, orphans: seq<(Json, nat)>)
    | MixedLogGroups(mixed: seq<Json>)
    | OffTarget(count: nat, targetMin: int, targetMax: int)
  {
    /** The only issue the validator words as a warning. */
    predicate IsWarning() {
      OffTarget?
    }

    /** The message's first word. */
    function Head(): string {
      match this
      case NotAnObject => "grouping_obj"
      case GroupsNotNonEmptyList => "groups"
      case TooManyGroups(_, _) => "groups_count"
      case GroupNotObject(_) => "groups["
      case GroupIdMissing(_) => "groups["
      case DuplicateGroupId(_) => "duplicate"
      case AcIdsNotStrList(_) => "groups["
      case GroupTooLarge(_, _, _) => "groups["
      case MissingAcs(_) => "missing"
      case UnknownAcs(_) => "unknown"
      case DuplicateAssignment(_) => "duplicate"
      case OrphanGroups(_, _) => "orphan"
      case MixedLogGroups(_) => "log"
      case OffTarget(_, _, _) => "warning:"
    }

    /** The rest of the message. */
    function Tail(): string {
      match this
      case NotAnObject => " must be dict"
      case GroupsNotNonEmptyList => " must be a non-empty list"
      case TooManyGroups(n, m) => " exceeds max_groups (" + IntToString(n) + " > " + IntToString(m) + ")"
      case GroupNotObject(i) => IntToString(i) + "] must be object"
      case GroupIdMissing(i) => IntToString(i) + "].group_id is missing/empty"
      case DuplicateGroupId(g) => " group_id: " + g
      case AcIdsNotStrList(i) => IntToString(i) + "].ac_ids must be non-empty list[str]"
      case GroupTooLarge(i, n, m) =>
        IntToString(i) + "] size exceeds max_ac_per_group (" + IntToString(n) + " > " + IntToString(m) + ")"
      case MissingAcs(ids) => " ACs (not assigned): " + Truncated20(ids)
      case UnknownAcs(ids) => " AC ids (invented): " + Truncated20(ids)
      case DuplicateAssignment(ids) => " assignment (AC appears in multiple groups): " + Truncated20(ids)
      case OrphanGroups(m, _) => " groups found (size < " + IntToString(m) + "): [...]"
      case MixedLogGroups(_) => " groups must be split (audit vs security). mixed_groups=[...]"
      case OffTarget(n, lo, hi) =>
        " groups_count=" + IntToString(n) + " not in target range [" + IntToString(lo) + "," + IntToString(hi) + "]"
    }

    /** The validator's message for the issue. */
    function Text(): string {
      Head() + Tail()
    }
  }

  /** `repr` of a list of ids (quotes inside ids are not escaped). */
  function ReprList(ids: seq<string>): string {
    "[" + Join(", ", seq(|ids|, i requires 0 <= i < |ids| => "'" + ids[i] + "'")) + "]"
  }

  /** `f"{ids[:20]}{'...' if len(ids) > 20 else ''}"`. */
  function Truncated20(ids: seq<string>): string {
    if |ids| > 20 then ReprList(ids[..20]) + "..." else ReprList(ids)
  }

  /** `str(x).startswith("warning:")`. */
  predicate WarningText(s: string) {
    StartsWith(s, "warning:")
  }

  /** Only a warning's message starts with `warning:`; every other first word starts
      with another letter. */
  lemma HeadOfWarning(x: Issue)
    ensures x.IsWarning() ==> x.Head() == "warning:"
    ensures !x.IsWarning() ==> |x.Head()| > 0 && x.Head()[0] != 'w' && 'a' <= x.Head()[0] <= 'z'
  {
  }

  /** A message starts with a prefix exactly when its first word is that prefix, if every
      other first word differs from it in its first character. */
  lemma PrefixByHead(h: string, t: string, p: string)
    requires |p| > 0
    requires h == p || (|h| > 0 && h[0] != p[0])
    ensures StartsWith(h + t, p) <==> h == p
  {
    if h != p {
      assert (h + t)[0] == h[0];
    } else {
      assert (h + t)[..|p|] == h;
    }
  }

  /** The message of an issue starts with `warning:` exactly when the issue is a warning. */
  lemma WarningTextIff(x: Issue)
    ensures WarningText(x.Text()) <==> x.IsWarning()
  {
    HeadOfWarning(x);
    PrefixByHead(x.Head(), x.Tail(), "warning:");
  }

  /** `all(str(x).startswith("warning:") for x in issues)`, on the messages. */
  predicate AllWarningTexts(texts: seq<string>) {
    forall i :: 0 <= i < |texts| ==> WarningText(texts[i])
  }

  /** The messages of a list of issues. */
  function Texts(issues: seq<Issue>): (r: seq<string>)
    ensures |r| == |issues|
    ensures forall i :: 0 <= i < |issues| ==> r[i] == issues[i].Text()
  {
    seq(|issues|, i requires 0 <= i < |issues| => issues[i].Text())
  }

  // ---------------------------------------------------------------------------
  // Per-group shape
  // ---------------------------------------------------------------------------

  /** `g.get("group_id")` when it is a string with a non-blank character, stripped. */
  function GroupIdOf(g: Json): Option<string> {
    if !g.JObj? then None
    else
      var gid := Get(g.fields, "group_id", JNull);
      if gid.JStr? && !Blank(gid.s) then Some(Strip(gid.s)) else None
  }

  /** `g.get("ac_ids")`, for a dictionary. */
  function AcIdsOf(g: Json): Json {
    if g.JObj? then Get(g.fields, "ac_ids", JNull) else JNull
  }

  /** The id-list check: `_is_str_list`, and in the corrected validator also non-empty. */
  predicate IdsOk(v: Json, nonEmpty: bool) {
    IsStrList(v) && (nonEmpty ==> |v.items| > 0)
  }

  /** A group the per-group loop raises nothing about. */
  predicate Shaped(g: Json, maxPerGroup: int, nonEmpty: bool) {
    && g.JObj?
    && GroupIdOf(g).Some?
    && IdsOk(AcIdsOf(g), nonEmpty)
    && |AcIdsOf(g).items| <= maxPerGroup
  }

  /** The stripped ids of the groups that have one, in order. */
  function GroupIds(gs: seq<Json>): (r: seq<string>)
    ensures |r| <= |gs|
  {
    if |gs| == 0 then []
    else (if GroupIdOf(gs[0]).Some? then [GroupIdOf(gs[0]).value] else []) + GroupIds(gs[1..])
  }

  /** The issues of one group at 1-based position `pos`, given the ids seen before it. */
  function GroupIssues(g: Json, pos: nat, seen: set<string>, maxPerGroup: int, nonEmpty: bool): seq<Issue> {
    if !g.JObj? then [GroupNotObject(pos)]
    else
      var idIssues :=
        if GroupIdOf(g).None? then [GroupIdMissing(pos)]
        else if GroupIdOf(g).value in seen then [DuplicateGroupId(GroupIdOf(g).value)]
        else [];
      var ids := AcIdsOf(g);
      var listIssues :=
        if !IdsOk(ids, nonEmpty) then [AcIdsNotStrList(pos)]
        else if |ids.items| > maxPerGroup then [GroupTooLarge(pos, |ids.items|, maxPerGroup)]
        else [];
      idIssues + listIssues
  }

  /** The ids seen after group `g`. */
  function SeenAfter(g: Json, seen: set<string>): set<string> {
    if GroupIdOf(g).Some? then seen + {GroupIdOf(g).value} else seen
  }

  /** The loop over `enumerate(groups, start=1)` with the `seen_gid` set. */
  function ShapeIssues(gs: seq<Json>, pos: nat, seen: set<string>, maxPerGroup: int, nonEmpty: bool): seq<Issue> {
    if |gs| == 0 then []
    else GroupIssues(gs[0], pos, seen, maxPerGroup, nonEmpty)
         + ShapeIssues(gs[1..], pos + 1, SeenAfter(gs[0], seen), maxPerGroup, nonEmpty)
  }

  lemma GroupIssuesEmpty(g: Json, pos: nat, seen: set<string>, maxPerGroup: int, nonEmpty: bool)
    ensures GroupIssues(g, pos, seen, maxPerGroup, nonEmpty) == []
        <==> Shaped(g, maxPerGroup, nonEmpty) && GroupIdOf(g).value !in seen
  {
  }

  /** Every group is one the per-group loop raises nothing about. */
  predicate AllShaped(gs: seq<Json>, maxPerGroup: int, nonEmpty: bool) {
    forall i :: 0 <= i < |gs| ==> Shaped(gs[i], maxPerGroup, nonEmpty)
  }

  /** No id of `ids` is in `seen`. */
  predicate NoneSeen(ids: seq<string>, seen: set<string>) {
    forall i :: 0 <= i < |ids| ==> ids[i] !in seen
  }

  lemma AllShapedCons(gs: seq<Json>, maxPerGroup: int, nonEmpty: bool)
    requires |gs| > 0
    ensures AllShaped(gs, maxPerGroup, nonEmpty)
        <==> Shaped(gs[0], maxPerGroup, nonEmpty) && AllShaped(gs[1..], maxPerGroup, nonEmpty)
  {
    if Shaped(gs[0], maxPerGroup, nonEmpty) && AllShaped(gs[1..], maxPerGroup, nonEmpty) {
      forall i | 0 < i < |gs| ensures Shaped(gs[i], maxPerGroup, nonEmpty) {
        assert gs[i] == gs[1..][i - 1];
      }
    }
  }

  lemma NoneSeenCons(x: string, ids: seq<string>, seen: set<string>)
    ensures NoneSeen([x] + ids, seen) <==> x !in seen && NoneSeen(ids, seen)
    ensures NoneSeen(ids, seen + {x}) <==> NoneSeen(ids, seen) && x !in ids
  {
    var l := [x] + ids;
    if x !in seen && NoneSeen(ids, seen) {
      forall i | 0 < i < |l| ensures l[i] !in seen {
        assert l[i] == ids[i - 1];
      }
    }
    if NoneSeen(l, seen) {
      assert l[0] == x;
      forall i | 0 <= i < |ids| ensures ids[i] !in seen {
        assert ids[i] == l[i + 1];
      }
    }
  }

  /** The per-group loop reports nothing exactly when every group is well shaped and the
      stripped ids are pairwise distinct and new. */
  lemma {:induction false} ShapeIssuesEmpty(gs: seq<Json>, pos: nat, seen: set<string>, maxPerGroup: int, nonEmpty: bool)
    ensures ShapeIssues(gs, pos, seen, maxPerGroup, nonEmpty) == []
        <==> AllShaped(gs, maxPerGroup, nonEmpty) && Distinct(GroupIds(gs)) && NoneSeen(GroupIds(gs), seen)
  {
    if |gs| > 0 {
      var g := gs[0];
      var rest := gs[1..];
      ShapeIssuesEmpty(rest, pos + 1, SeenAfter(g, seen), maxPerGroup, nonEmpty);
      GroupIssuesEmpty(g, pos, seen, maxPerGroup, nonEmpty);
      AllShapedCons(gs, maxPerGroup, nonEmpty);
      if Shaped(g, maxPerGroup, nonEmpty) {
        var x := GroupIdOf(g).value;
        assert GroupIds(gs) == [x] + GroupIds(rest);
        DistinctCons(x, GroupIds(rest));
        NoneSeenCons(x, GroupIds(rest), seen);
      }
    }
  }

  // ---------------------------------------------------------------------------
  // Coverage
  // ---------------------------------------------------------------------------

  /** `[a for a in g["ac_ids"] if isinstance(a, str) and a.strip()]` (not stripped). */
  function StringIds(items: seq<Json>): (r: seq<string>)
    ensures |r| <= |items|
  {
    if |items| == 0 then []
    else (if items[0].JStr? && !Blank(items[0].s) then [items[0].s] else []) + StringIds(items[1..])
  }

  /** The ids a group contributes to `assignedIds`. */
  function AssignedOf(g: Json): seq<string> {
    if g.JObj? && AcIdsOf(g).JArr? then StringIds(AcIdsOf(g).items) else []
  }

  /** `assignedIds`: the contributions of every group, in order. */
  function Assigned(gs: seq<Json>): seq<string> {
    if |gs| == 0 then [] else AssignedOf(gs[0]) + Assigned(gs[1..])
  }

  /** `[a for a in all_ac_ids if a not in assigned_set]`. */
  function Missing(keys: seq<string>, assignedIds: seq<string>): (r: seq<string>)
    ensures forall a :: a in r <==> a in keys && a !in assignedIds
  {
    Filter(keys, a => a !in assignedIds)
  }

  /** `[a for a in assignedIds if a not in all_set]`. */
  function Unknown(keys: seq<string>, assignedIds: seq<string>): (r: seq<string>)
    ensures forall a :: a in r <==> a in assignedIds && a !in keys
  {
    Filter(assignedIds, a => a !in keys)
  }

  /** `sorted(a for a, c in count.items() if c >= 2)`. */
  function Duplicated(assignedIds: seq<string>): (r: seq<string>)
    ensures SortedStrings(r) && Distinct(r)
    ensures forall a :: a in r <==> multiset(assignedIds)[a] >= 2
  {
    var d := DedupPreserve(Filter(assignedIds, a => multiset(assignedIds)[a] >= 2));
    var r := SortStrings(d);
    assert forall a :: a in r <==> a in d by {
      forall a ensures a in r <==> a in d {
        assert a in r <==> multiset(r)[a] > 0;
        assert a in d <==> multiset(d)[a] > 0;
      }
    }
    DistinctOfSameMultiset(r, d);
    r
  }

  /** Every issue of the list is hard. */
  predicate AllHard(xs: seq<Issue>) {
    forall i :: 0 <= i < |xs| ==> !xs[i].IsWarning()
  }

  function CoverageIssues(keys: seq<string>, assignedIds: seq<string>): (r: seq<Issue>)
    ensures AllHard(r)
  {
    ReportLists(Missing(keys, assignedIds), Unknown(keys, assignedIds), Duplicated(assignedIds))
  }

  /** The three coverage messages, each only when its list is non-empty. */
  function ReportLists(missing: seq<string>, unknown: seq<string>, dup: seq<string>): (r: seq<Issue>)
    ensures AllHard(r)
    ensures r == [] <==> missing == [] && unknown == [] && dup == []
  {
    var a := if |missing| > 0 then [MissingAcs(missing)] else [];
    var b := if |unknown| > 0 then [UnknownAcs(unknown)] else [];
    var c := if |dup| > 0 then [DuplicateAssignment(dup)] else [];
    assert AllHard(a) && AllHard(b) && AllHard(c);
    AllHardAppend(a, b);
    AllHardAppend(a + b, c);
    a + b + c
  }

  lemma AllHardAppend(a: seq<Issue>, b: seq<Issue>)
    requires AllHard(a) && AllHard(b)
    ensures AllHard(a + b)
  {
    forall i | 0 <= i < |a + b| ensures !(a + b)[i].IsWarning() {
      if i < |a| { assert (a + b)[i] == a[i]; } else { assert (a + b)[i] == b[i - |a|]; }
    }
  }

  lemma SameElementsDistinct(a: seq<string>, b: seq<string>)
    requires Distinct(a) && Distinct(b)
    requires forall x :: x in a <==> x in b
    ensures multiset(a) == multiset(b)
  {
    DistinctCounts(a);
    DistinctCounts(b);
    forall x ensures multiset(a)[x] == multiset(b)[x] {
      assert x in a <==> multiset(a)[x] > 0;
      assert x in b <==> multiset(b)[x] > 0;
    }
  }

  /** Coverage is clean (nothing missing, invented or repeated) exactly when the assignedIds
      ids are a permutation of the AC map's keys: every AC is covered exactly once. */
  lemma CoverageExactlyOnce(acMap: AcMap, assignedIds: seq<string>)
    ensures CoverageIssues(Keys(acMap), assignedIds) == [] <==> multiset(assignedIds) == multiset(Keys(acMap))
  {
    var keys := Keys(acMap);
    KeysDistinct(acMap);
    var clean := |Missing(keys, assignedIds)| == 0 && |Unknown(keys, assignedIds)| == 0 && |Duplicated(assignedIds)| == 0;
    assert CoverageIssues(keys, assignedIds) == [] <==> clean;
    var missing := Missing(keys, assignedIds);
    var unknown := Unknown(keys, assignedIds);
    var dup := Duplicated(assignedIds);
    assert |missing| > 0 ==> missing[0] in missing;
    assert |unknown| > 0 ==> unknown[0] in unknown;
    assert |dup| > 0 ==> dup[0] in dup;
    if clean {
      forall a | a in keys ensures a in assignedIds {
        assert a !in missing;
      }
      forall a | a in assignedIds ensures a in keys {
        assert a !in unknown;
      }
      forall a ensures multiset(assignedIds)[a] <= 1 {
        assert a !in dup;
      }
      DistinctCounts(assignedIds);
      SameElementsDistinct(assignedIds, keys);
    }
    if multiset(assignedIds) == multiset(keys) {
      DistinctCounts(keys);
      forall a ensures a in assignedIds <==> a in keys {
        assert a in assignedIds <==> multiset(assignedIds)[a] > 0;
        assert a in keys <==> multiset(keys)[a] > 0;
      }
    }
  }

  // ---------------------------------------------------------------------------
  // Orphans, log split, target range
  // ---------------------------------------------------------------------------

  /** `g.get("ac_ids", [])`, for a dictionary. */
  function AcIdsOrEmpty(g: Json): Json {
    if g.JObj? then Get(g.fields, "ac_ids", JArr([])) else JArr([])
  }

  /** `g.get("group_id", "?")`, for a dictionary. */
  function GroupIdOrMark(g: Json): Json {
    if g.JObj? then Get(g.fields, "group_id", JStr("?")) else JStr("?")
  }

  /** A group of 1 to `minGroupSize - 1` ids (counting every list element). */
  predicate IsOrphan(g: Json, minGroupSize: int) {
    AcIdsOrEmpty(g).JArr? && 1 <= |AcIdsOrEmpty(g).items| < minGroupSize
  }

  function Orphans(gs: seq<Json>, minGroupSize: int): (r: seq<(Json, nat)>)
    ensures |r| == 0 <==> NoOrphans(gs, minGroupSize)
  {
    if |gs| == 0 then []
    else
      var rest := Orphans(gs[1..], minGroupSize);
      NoOrphansCons(gs, minGroupSize);
      (if IsOrphan(gs[0], minGroupSize) then [(GroupIdOrMark(gs[0]), |AcIdsOrEmpty(gs[0]).items|)] else []) + rest
  }

  /** No group is an orphan. */
  predicate NoOrphans(gs: seq<Json>, minGroupSize: int) {
    forall i :: 0 <= i < |gs| ==> !IsOrphan(gs[i], minGroupSize)
  }

  /** No group mixes audit and security logs. */
  predicate NoMixed(gs: seq<Json>, acMap: AcMap) {
    forall i :: 0 <= i < |gs| ==> !Mixed(gs[i], acMap)
  }

  lemma NoOrphansCons(gs: seq<Json>, minGroupSize: int)
    requires |gs| > 0
    ensures NoOrphans(gs, minGroupSize) <==> !IsOrphan(gs[0], minGroupSize) && NoOrphans(gs[1..], minGroupSize)
  {
    assert forall i :: 0 < i < |gs| ==> gs[i] == gs[1..][i - 1];
  }

  lemma NoMixedCons(gs: seq<Json>, acMap: AcMap)
    requires |gs| > 0
    ensures NoMixed(gs, acMap) <==> !Mixed(gs[0], acMap) && NoMixed(gs[1..], acMap)
  {
    assert forall i :: 0 < i < |gs| ==> gs[i] == gs[1..][i - 1];
  }

  /** Some id of the list names an AC of kind `k`. */
  predicate HasKind(items: seq<Json>, acMap: AcMap, k: Kind) {
    exists i :: 0 <= i < |items| && items[i].JStr? && HasKey(acMap, items[i].s) && LogKind(TextOf(acMap, items[i].s)) == k
  }

  /** A group that mixes audit-log and security-log ACs. */
  predicate Mixed(g: Json, acMap: AcMap) {
    var ids := AcIdsOrEmpty(g);
    ids.JArr? && HasKind(ids.items, acMap, Audit) && HasKind(ids.items, acMap, Security)
  }

  function MixedGroups(gs: seq<Json>, acMap: AcMap): (r: seq<Json>)
    ensures |r| == 0 <==> NoMixed(gs, acMap)
  {
    if |gs| == 0 then []
    else
      var rest := MixedGroups(gs[1..], acMap);
      NoMixedCons(gs, acMap);
      (if Mixed(gs[0], acMap) then [GroupIdOrMark(gs[0])] else []) + rest
  }

  /** Whether the group count draws the target-range warning. */
  predicate OffTargetCount(n: nat, total: nat, p: Limits) {
    total >= p.targetMin * p.minGroupSize && !(p.targetMin <= n <= p.targetMax) && n <= p.maxGroups
  }

  // ---------------------------------------------------------------------------
  // Exceptions
  // ---------------------------------------------------------------------------

  /** Values `in` on a dictionary cannot hash. */
  predicate Unhashable(v: Json) {
    v.JArr? || v.JObj?
  }

  /** The first exception of the log-split loop, if any. */
  function LogSplitCrash(gs: seq<Json>): (r: Option<string>)
    ensures r.None? <==> forall i :: 0 <= i < |gs| ==>
      && gs[i].JObj?
      && (AcIdsOrEmpty(gs[i]).JArr? ==> forall j :: 0 <= j < |AcIdsOrEmpty(gs[i]).items| ==> !Unhashable(AcIdsOrEmpty(gs[i]).items[j]))
  {
    if |gs| == 0 then None
    else
      assert forall i :: 0 < i < |gs| ==> gs[i] == gs[1..][i - 1];
      var g := gs[0];
      if !g.JObj? then Some("AttributeError: object has no attribute 'get'")
      else if AcIdsOrEmpty(g).JArr? && exists j :: 0 <= j < |AcIdsOrEmpty(g).items| && Unhashable(AcIdsOrEmpty(g).items[j]) then
        Some("TypeError: unhashable type")
      else LogSplitCrash(gs[1..])
  }

  /** The exception `validate_grouping` raises on the `groups` list, if any. */
  function Crash(gs: seq<Json>, total: nat, p: Limits): Option<string> {
    if total >= p.minGroupSize + 2 && exists i :: 0 <= i < |gs| && !gs[i].JObj? then
      Some("AttributeError: object has no attribute 'get'")
    else if p.requireLogSplit then LogSplitCrash(gs)
    else None
  }

  // ---------------------------------------------------------------------------
  // validate_grouping
  // ---------------------------------------------------------------------------

  datatype Verdict = Verdict(ok: bool, issues: seq<Issue>)

  /** `grouping_obj.get("groups")` when it is a list. */
  function GroupsOf(obj: Json): Option<seq<Json>> {
    if obj.JObj? && Get(obj.fields, "groups", JNull).JArr? then Some(Get(obj.fields, "groups", JNull).items) else None
  }

  /** The `max_groups` check. */
  function CountIssues(n: nat, p: Limits): (r: seq<Issue>)
    ensures AllHard(r)
    ensures r == [] <==> n <= p.maxGroups
  {
    if n > p.maxGroups then [TooManyGroups(n, p.maxGroups)] else []
  }

  /** The orphan check, run only when there are at least `min_group_size + 2` ACs. */
  function OrphanIssues(gs: seq<Json>, total: nat, p: Limits): (r: seq<Issue>)
    ensures AllHard(r)
    ensures r == [] <==> (total >= p.minGroupSize + 2 ==> NoOrphans(gs, p.minGroupSize))
  {
    if total >= p.minGroupSize + 2 && |Orphans(gs, p.minGroupSize)| > 0
    then [OrphanGroups(p.minGroupSize, Orphans(gs, p.minGroupSize))] else []
  }

  /** The audit/security split check, run when `require_log_split` is set. */
  function LogSplitIssues(gs: seq<Json>, acMap: AcMap, p: Limits): (r: seq<Issue>)
    ensures AllHard(r)
    ensures r == [] <==> (p.requireLogSplit ==> NoMixed(gs, acMap))
  {
    if p.requireLogSplit && |MixedGroups(gs, acMap)| > 0 then [MixedLogGroups(MixedGroups(gs, acMap))] else []
  }

  /** The target-range check: its only issue is a warning. */
  function TargetIssues(n: nat, total: nat, p: Limits): (r: seq<Issue>)
    ensures NoHard(r)
    ensures r != [] <==> OffTargetCount(n, total, p)
  {
    if OffTargetCount(n, total, p) then [OffTarget(n, p.targetMin, p.targetMax)] else []
  }

  /** Every issue the checks after the two early exits report, in order. */
  function AllIssues(gs: seq<Json>, acMap: AcMap, p: Limits, nonEmpty: bool): seq<Issue> {
    CountIssues(|gs|, p)
    + ShapeIssues(gs, 1, {}, p.maxPerGroup, nonEmpty)
    + CoverageIssues(Keys(acMap), Assigned(gs))
    + OrphanIssues(gs, |acMap|, p)
    + LogSplitIssues(gs, acMap, p)
    + TargetIssues(|gs|, |acMap|, p)
  }

  /** The validator with a switch for the id-list check: `nonEmpty == false` is the code as
      written, `nonEmpty == true` also rejects an empty `ac_ids` list. */
  function Validate(obj: Json, acMap: AcMap, p: Limits, nonEmpty: bool): (r: Result<Verdict>)
    ensures !obj.JObj? ==> r == Ok(Verdict(false, [NotAnObject]))
    ensures obj.JObj? && (GroupsOf(obj).None? || |GroupsOf(obj).value| == 0) ==> r == Ok(Verdict(false, [GroupsNotNonEmptyList]))
  {
    if !obj.JObj? then Ok(Verdict(false, [NotAnObject]))
    else if GroupsOf(obj).None? || |GroupsOf(obj).value| == 0 then Ok(Verdict(false, [GroupsNotNonEmptyList]))
    else
      var gs := GroupsOf(obj).value;
      var crash := Crash(gs, |acMap|, p);
      if crash.Some? then Err(crash.value)
      else
        var issues := AllIssues(gs, acMap, p, nonEmpty);
        Ok(Verdict(AllWarningTexts(Texts(issues)), issues))
  }

  /** `validate_grouping` as written. */
  function ValidateGrouping(obj: Json, acMap: AcMap, p: Limits): (r: Result<Verdict>)
    ensures !obj.JObj? ==> r == Ok(Verdict(false, [NotAnObject]))
  {
    Validate(obj, acMap, p, false)
  }

  /** `validate_grouping` with the id-list check its docstring and message describe:
      `ac_ids` must be a non-empty list of strings. */
  function ValidateGroupingStrict(obj: Json, acMap: AcMap, p: Limits): (r: Result<Verdict>)
    ensures !obj.JObj? ==> r == Ok(Verdict(false, [NotAnObject]))
  {
    Validate(obj, acMap, p, true)
  }

  // ---------------------------------------------------------------------------
  // What acceptance means
  // ---------------------------------------------------------------------------

  /** A proposal the validator accepts, stated without the issue list: at most `maxGroups`
      groups, each a dictionary with a non-blank id and an id list of at most
      `maxPerGroup` non-blank strings; distinct stripped group ids; every AC assignedIds
      exactly once; no orphan group when there are enough ACs to avoid one; no group that
      mixes audit and security logs when the split is required. */
  predicate Acceptable(gs: seq<Json>, acMap: AcMap, p: Limits, nonEmpty: bool) {
    && |gs| <= p.maxGroups
    && AllShaped(gs, p.maxPerGroup, nonEmpty)
    && Distinct(GroupIds(gs))
    && multiset(Assigned(gs)) == multiset(Keys(acMap))
    && (|acMap| >= p.minGroupSize + 2 ==> NoOrphans(gs, p.minGroupSize))
    && (p.requireLogSplit ==> NoMixed(gs, acMap))
  }

  lemma AllWarningsIff(issues: seq<Issue>)
    ensures AllWarningTexts(Texts(issues)) <==> NoHard(issues)
  {
    forall i | 0 <= i < |issues| ensures WarningText(Texts(issues)[i]) <==> issues[i].IsWarning() {
      WarningTextIff(issues[i]);
    }
  }

  /** Well-shaped groups hold only strings, so the log-split loop cannot raise on them. */
  lemma ShapedNoCrash(gs: seq<Json>, total: nat, p: Limits, nonEmpty: bool)
    requires AllShaped(gs, p.maxPerGroup, nonEmpty)
    ensures Crash(gs, total, p).None?
  {
    forall i | 0 <= i < |gs| ensures AcIdsOrEmpty(gs[i]) == AcIdsOf(gs[i]) {
      assert "ac_ids" in gs[i].fields;
    }
  }

  /** No issue of the list is hard. */
  predicate NoHard(xs: seq<Issue>) {
    forall i :: 0 <= i < |xs| ==> xs[i].IsWarning()
  }

  lemma NoHardAppend(a: seq<Issue>, b: seq<Issue>)
    ensures NoHard(a + b) <==> NoHard(a) && NoHard(b)
  {
    assert forall i :: 0 <= i < |a| ==> (a + b)[i] == a[i];
    assert forall i :: 0 <= i < |b| ==> (a + b)[|a| + i] == b[i];
  }

  /** A list of hard issues has no hard issue only when it is empty. */
  lemma NoHardOfHard(xs: seq<Issue>)
    requires AllHard(xs)
    ensures NoHard(xs) <==> xs == []
  {
    assert |xs| > 0 ==> !xs[0].IsWarning();
  }

  /** The verdict is ok exactly when every check except the target range is clean. */
  lemma AllWarningsIffClean(gs: seq<Json>, acMap: AcMap, p: Limits, nonEmpty: bool)
    ensures NoHard(AllIssues(gs, acMap, p, nonEmpty))
        <==> && |gs| <= p.maxGroups
             && ShapeIssues(gs, 1, {}, p.maxPerGroup, nonEmpty) == []
             && CoverageIssues(Keys(acMap), Assigned(gs)) == []
             && (|acMap| >= p.minGroupSize + 2 ==> NoOrphans(gs, p.minGroupSize))
             && (p.requireLogSplit ==> NoMixed(gs, acMap))
  {
    var a := CountIssues(|gs|, p);
    var b := ShapeIssues(gs, 1, {}, p.maxPerGroup, nonEmpty);
    var c := CoverageIssues(Keys(acMap), Assigned(gs));
    var d := OrphanIssues(gs, |acMap|, p);
    var e := LogSplitIssues(gs, acMap, p);
    var f := TargetIssues(|gs|, |acMap|, p);
    NoHardAppend(a + b + c + d + e, f);
    NoHardAppend(a + b + c + d, e);
    NoHardAppend(a + b + c, d);
    NoHardAppend(a + b, c);
    NoHardAppend(a, b);
    ShapeIssuesHard(gs, 1, {}, p.maxPerGroup, nonEmpty);
    NoHardOfHard(a);
    NoHardOfHard(b);
    NoHardOfHard(c);
    NoHardOfHard(d);
    NoHardOfHard(e);
  }

  lemma {:induction false} ShapeIssuesHard(gs: seq<Json>, pos: nat, seen: set<string>, maxPerGroup: int, nonEmpty: bool)
    ensures AllHard(ShapeIssues(gs, pos, seen, maxPerGroup, nonEmpty))
  {
    if |gs| > 0 {
      ShapeIssuesHard(gs[1..], pos + 1, SeenAfter(gs[0], seen), maxPerGroup, nonEmpty);
      var g := GroupIssues(gs[0], pos, seen, maxPerGroup, nonEmpty);
      assert AllHard(g);
      AllHardAppend(g, ShapeIssues(gs[1..], pos + 1, SeenAfter(gs[0], seen), maxPerGroup, nonEmpty));
    }
  }

  /** The issue list holds only warnings exactly when the groups are `Acceptable`. */
  lemma NoHardIffAcceptable(gs: seq<Json>, acMap: AcMap, p: Limits, nonEmpty: bool)
    ensures NoHard(AllIssues(gs, acMap, p, nonEmpty)) <==> Acceptable(gs, acMap, p, nonEmpty)
  {
    AllWarningsIffClean(gs, acMap, p, nonEmpty);
    ShapeIssuesEmpty(gs, 1, {}, p.maxPerGroup, nonEmpty);
    CoverageExactlyOnce(acMap, Assigned(gs));
  }

  /** Past the two early exits and without an exception, the verdict is ok exactly when
      no issue is hard. */
  lemma ValidateNoCrash(obj: Json, acMap: AcMap, p: Limits, nonEmpty: bool)
    requires obj.JObj? && GroupsOf(obj).Some? && |GroupsOf(obj).value| > 0
    requires Crash(GroupsOf(obj).value, |acMap|, p).None?
    ensures var issues := AllIssues(GroupsOf(obj).value, acMap, p, nonEmpty);
      Validate(obj, acMap, p, nonEmpty) == Ok(Verdict(NoHard(issues), issues))
  {
    AllWarningsIff(AllIssues(GroupsOf(obj).value, acMap, p, nonEmpty));
  }

  /** An ok verdict comes from a non-empty `groups` list that is `Acceptable`. */
  lemma ValidateOkSound(obj: Json, acMap: AcMap, p: Limits, nonEmpty: bool)
    requires Validate(obj, acMap, p, nonEmpty).Ok? && Validate(obj, acMap, p, nonEmpty).value.ok
    ensures GroupsOf(obj).Some? && |GroupsOf(obj).value| > 0 && Acceptable(GroupsOf(obj).value, acMap, p, nonEmpty)
  {
    var gs := GroupsOf(obj).value;
    ValidateNoCrash(obj, acMap, p, nonEmpty);
    NoHardIffAcceptable(gs, acMap, p, nonEmpty);
  }

  /** A non-empty `Acceptable` groups list draws an ok verdict, without an exception. */
  lemma ValidateOkComplete(obj: Json, acMap: AcMap, p: Limits, nonEmpty: bool)
    requires GroupsOf(obj).Some? && |GroupsOf(obj).value| > 0 && Acceptable(GroupsOf(obj).value, acMap, p, nonEmpty)
    ensures Validate(obj, acMap, p, nonEmpty).Ok? && Validate(obj, acMap, p, nonEmpty).value.ok
  {
    var gs := GroupsOf(obj).value;
    ShapedNoCrash(gs, |acMap|, p, nonEmpty);
    ValidateNoCrash(obj, acMap, p, nonEmpty);
    NoHardIffAcceptable(gs, acMap, p, nonEmpty);
  }

  /** The validator's verdict: it never raises on a proposal whose groups are well shaped,
      and it says ok exactly when the proposal is a dictionary with a non-empty `groups`
      list that is `Acceptable`. */
  lemma ValidateOkIff(obj: Json, acMap: AcMap, p: Limits, nonEmpty: bool)
    ensures var r := Validate(obj, acMap, p, nonEmpty);
      (r.Ok? && r.value.ok)
      <==> (GroupsOf(obj).Some? && |GroupsOf(obj).value| > 0 && Acceptable(GroupsOf(obj).value, acMap, p, nonEmpty))
  {
    var r := Validate(obj, acMap, p, nonEmpty);
    if r.Ok? && r.value.ok {
      ValidateOkSound(obj, acMap, p, nonEmpty);
    }
    if GroupsOf(obj).Some? && |GroupsOf(obj).value| > 0 && Acceptable(GroupsOf(obj).value, acMap, p, nonEmpty) {
      ValidateOkComplete(obj, acMap, p, nonEmpty);
    }
  }

  // ---------------------------------------------------------------------------
  // Normalised proposals
  // ---------------------------------------------------------------------------

  /** Some id of the list names an AC whose text is of kind `k`. */
  predicate IdsHaveKind(ids: seq<string>, acMap: AcMap, k: Kind) {
    exists i :: 0 <= i < |ids| && HasKey(acMap, ids[i]) && LogKind(TextOf(acMap, ids[i])) == k
  }

  /** `Acceptable` for normalised groups, in their own terms. */
  predicate AcceptableGroups(gs: seq<Group>, acMap: AcMap, p: Limits, nonEmpty: bool) {
    && |gs| <= p.maxGroups
    && SizesOk(gs, p.maxPerGroup, nonEmpty)
    && Distinct(GroupIdsOf(gs))
    && multiset(AllAcIds(gs)) == multiset(Keys(acMap))
    && (|acMap| >= p.minGroupSize + 2 ==> NoOrphanGroups(gs, p.minGroupSize))
    && (p.requireLogSplit ==> NoMixedGroups(gs, acMap))
  }

  /** Every group has at most `maxPerGroup` ids, and at least one when `nonEmpty`. */
  predicate SizesOk(gs: seq<Group>, maxPerGroup: int, nonEmpty: bool) {
    forall i :: 0 <= i < |gs| ==> |gs[i].acIds| <= maxPerGroup && (nonEmpty ==> |gs[i].acIds| > 0)
  }

  /** No group has between one and `minGroupSize - 1` ids. */
  predicate NoOrphanGroups(gs: seq<Group>, minGroupSize: int) {
    forall i :: 0 <= i < |gs| ==> !(1 <= |gs[i].acIds| < minGroupSize)
  }

  /** No group holds both an audit-log and a security-log AC. */
  predicate NoMixedGroups(gs: seq<Group>, acMap: AcMap) {
    forall i :: 0 <= i < |gs| ==> !(IdsHaveKind(gs[i].acIds, acMap, Audit) && IdsHaveKind(gs[i].acIds, acMap, Security))
  }

  lemma {:induction false} StringIdsOfClean(xs: seq<string>)
    requires forall i :: 0 <= i < |xs| ==> |xs[i]| > 0 && Stripped(xs[i])
    ensures StringIds(StrArr(xs).items) == xs
  {
    if |xs| > 0 {
      assert StrArr(xs).items[1..] == StrArr(xs[1..]).items;
      StringIdsOfClean(xs[1..]);
      assert !IsSpace(xs[0][0]);
    }
  }

  /** The fields of one normalised group as the validator reads them. */
  lemma GroupJsonFields(g: Group)
    requires WellFormedGroup(g)
    ensures GroupIdOf(GroupToJson(g)) == Some(g.groupId)
    ensures AcIdsOf(GroupToJson(g)) == StrArr(g.acIds) == AcIdsOrEmpty(GroupToJson(g))
    ensures AssignedOf(GroupToJson(g)) == g.acIds
  {
    var j := GroupToJson(g);
    assert Get(j.fields, "group_id", JNull) == JStr(g.groupId);
    assert Get(j.fields, "ac_ids", JNull) == StrArr(g.acIds);
    assert Get(j.fields, "ac_ids", JArr([])) == StrArr(g.acIds);
    StripOfStripped(g.groupId);
    assert !IsSpace(g.groupId[0]);
    StringIdsOfClean(g.acIds);
  }

  /** A JSON string of the list with `p` is an id of the list with `p`, and back. */
  lemma StrArrExists(ids: seq<string>, p: string -> bool)
    ensures (exists i :: 0 <= i < |StrArr(ids).items| && StrArr(ids).items[i].JStr? && p(StrArr(ids).items[i].s))
        <==> (exists i :: 0 <= i < |ids| && p(ids[i]))
  {
    var items := StrArr(ids).items;
    if exists i :: 0 <= i < |items| && items[i].JStr? && p(items[i].s) {
      var i :| 0 <= i < |items| && items[i].JStr? && p(items[i].s);
      assert items[i].s == ids[i];
    }
    if exists i :: 0 <= i < |ids| && p(ids[i]) {
      var i :| 0 <= i < |ids| && p(ids[i]);
      assert items[i].s == ids[i];
    }
  }

  /** The log kinds among a list of ids are those among its JSON strings. */
  lemma StrArrKinds(ids: seq<string>, acMap: AcMap, k: Kind)
    ensures HasKind(StrArr(ids).items, acMap, k) <==> IdsHaveKind(ids, acMap, k)
  {
    StrArrExists(ids, s => HasKey(acMap, s) && LogKind(TextOf(acMap, s)) == k);
  }

  /** Non-blank strings make a list `_is_str_list` accepts. */
  lemma StrArrIsStrList(xs: seq<string>)
    requires StrippedNonEmpty(xs)
    ensures IsStrList(StrArr(xs))
  {
    forall i | 0 <= i < |xs| ensures !Blank(xs[i]) {
      assert !IsSpace(xs[i][0]);
    }
  }

  /** How the validator sees a dictionary whose id and id list are those of `g`: its
      shape, orphan and log-mixing checks are those of the group's own fields. */
  lemma JsonView(j: Json, g: Group, acMap: AcMap, p: Limits, nonEmpty: bool)
    requires WellFormedGroup(g)
    requires j.JObj? && GroupIdOf(j) == Some(g.groupId)
    requires AcIdsOf(j) == StrArr(g.acIds) == AcIdsOrEmpty(j)
    ensures Shaped(j, p.maxPerGroup, nonEmpty) <==> |g.acIds| <= p.maxPerGroup && (nonEmpty ==> |g.acIds| > 0)
    ensures IsOrphan(j, p.minGroupSize) <==> 1 <= |g.acIds| < p.minGroupSize
    ensures Mixed(j, acMap) <==> IdsHaveKind(g.acIds, acMap, Audit) && IdsHaveKind(g.acIds, acMap, Security)
  {
    StrArrIsStrList(g.acIds);
    StrArrKinds(g.acIds, acMap, Audit);
    StrArrKinds(g.acIds, acMap, Security);
  }

  /** How the validator sees one normalised group. */
  lemma GroupJsonView(g: Group, acMap: AcMap, p: Limits, nonEmpty: bool)
    requires WellFormedGroup(g)
    ensures Shaped(GroupToJson(g), p.maxPerGroup, nonEmpty)
        <==> |g.acIds| <= p.maxPerGroup && (nonEmpty ==> |g.acIds| > 0)
    ensures IsOrphan(GroupToJson(g), p.minGroupSize) <==> 1 <= |g.acIds| < p.minGroupSize
    ensures Mixed(GroupToJson(g), acMap)
        <==> IdsHaveKind(g.acIds, acMap, Audit) && IdsHaveKind(g.acIds, acMap, Security)
  {
    GroupJsonFields(g);
    JsonView(GroupToJson(g), g, acMap, p, nonEmpty);
  }

  /** When every dictionary has a usable id, the collected ids are those ids in order. */
  lemma {:induction false} GroupIdsAllSome(js: seq<Json>, ids: seq<string>)
    requires |js| == |ids|
    requires forall i :: 0 <= i < |js| ==> GroupIdOf(js[i]) == Some(ids[i])
    ensures GroupIds(js) == ids
  {
    if |js| > 0 {
      GroupIdsAllSome(js[1..], ids[1..]);
      assert ids == [ids[0]] + ids[1..];
    }
  }

  /** When entry `i` contributes the ids of `gs[i]`, the assigned ids are their
      concatenation. */
  lemma {:induction false} AssignedAll(js: seq<Json>, gs: seq<Group>)
    requires |js| == |gs|
    requires forall i :: 0 <= i < |js| ==> AssignedOf(js[i]) == gs[i].acIds
    ensures Assigned(js) == AllAcIds(gs)
  {
    if |js| > 0 {
      AssignedAll(js[1..], gs[1..]);
    }
  }

  lemma GroupsJsonGroupIds(gs: seq<Group>)
    requires forall i :: 0 <= i < |gs| ==> WellFormedGroup(gs[i])
    ensures GroupIds(GroupsToJson(gs)) == GroupIdsOf(gs)
  {
    var js := GroupsToJson(gs);
    forall i | 0 <= i < |js| ensures GroupIdOf(js[i]) == Some(GroupIdsOf(gs)[i]) {
      GroupJsonFields(gs[i]);
    }
    GroupIdsAllSome(js, GroupIdsOf(gs));
  }

  lemma GroupsJsonAssigned(gs: seq<Group>)
    requires forall i :: 0 <= i < |gs| ==> WellFormedGroup(gs[i])
    ensures Assigned(GroupsToJson(gs)) == AllAcIds(gs)
  {
    var js := GroupsToJson(gs);
    forall i | 0 <= i < |js| ensures AssignedOf(js[i]) == gs[i].acIds {
      GroupJsonFields(gs[i]);
    }
    AssignedAll(js, gs);
  }

  /** The ids and assigned ACs of normalised groups are those of the groups themselves. */
  lemma GroupsJsonIds(gs: seq<Group>)
    requires forall i :: 0 <= i < |gs| ==> WellFormedGroup(gs[i])
    ensures GroupIds(GroupsToJson(gs)) == GroupIdsOf(gs)
    ensures Assigned(GroupsToJson(gs)) == AllAcIds(gs)
  {
    GroupsJsonGroupIds(gs);
    GroupsJsonAssigned(gs);
  }

  lemma ShapedNormalized(gs: seq<Group>, p: Limits, nonEmpty: bool)
    requires forall i :: 0 <= i < |gs| ==> WellFormedGroup(gs[i])
    ensures AllShaped(GroupsToJson(gs), p.maxPerGroup, nonEmpty) <==> SizesOk(gs, p.maxPerGroup, nonEmpty)
  {
    forall i | 0 <= i < |gs|
      ensures Shaped(GroupsToJson(gs)[i], p.maxPerGroup, nonEmpty)
          <==> |gs[i].acIds| <= p.maxPerGroup && (nonEmpty ==> |gs[i].acIds| > 0)
    {
      GroupJsonView(gs[i], [], p, nonEmpty);
    }
  }

  lemma OrphanNormalized(gs: seq<Group>, p: Limits)
    requires forall i :: 0 <= i < |gs| ==> WellFormedGroup(gs[i])
    ensures NoOrphans(GroupsToJson(gs), p.minGroupSize) <==> NoOrphanGroups(gs, p.minGroupSize)
  {
    forall i | 0 <= i < |gs|
      ensures IsOrphan(GroupsToJson(gs)[i], p.minGroupSize) <==> 1 <= |gs[i].acIds| < p.minGroupSize
    {
      GroupJsonView(gs[i], [], p, false);
    }
  }

  lemma MixedNormalized(gs: seq<Group>, acMap: AcMap)
    requires forall i :: 0 <= i < |gs| ==> WellFormedGroup(gs[i])
    ensures NoMixed(GroupsToJson(gs), acMap) <==> NoMixedGroups(gs, acMap)
  {
    forall i | 0 <= i < |gs|
      ensures Mixed(GroupsToJson(gs)[i], acMap)
          <==> IdsHaveKind(gs[i].acIds, acMap, Audit) && IdsHaveKind(gs[i].acIds, acMap, Security)
    {
      GroupJsonView(gs[i], acMap, DEFAULT_LIMITS, false);
    }
  }

  /** For normalised groups the validator's acceptance is `AcceptableGroups`. */
  lemma AcceptableNormalized(gs: seq<Group>, acMap: AcMap, p: Limits, nonEmpty: bool)
    requires forall i :: 0 <= i < |gs| ==> WellFormedGroup(gs[i])
    ensures Acceptable(GroupsToJson(gs), acMap, p, nonEmpty) <==> AcceptableGroups(gs, acMap, p, nonEmpty)
  {
    GroupsJsonIds(gs);
    ShapedNormalized(gs, p, nonEmpty);
    OrphanNormalized(gs, p);
    MixedNormalized(gs, acMap);
  }

  /** The groups list of a normalised proposal as the validator reads it. */
  lemma GroupsOfGroupingJson(gs: seq<Group>, meta: Json)
    ensures GroupsOf(GroupingJson(gs, meta)) == Some(GroupsToJson(gs))
  {
    assert Get(GroupingJson(gs, meta).fields, "groups", JNull) == JArr(GroupsToJson(gs));
  }

  /** Dictionaries whose id lists are lists of strings never make the validator raise. */
  lemma StrListsNoCrash(gs: seq<Json>, total: nat, p: Limits)
    requires forall i :: 0 <= i < |gs| ==> gs[i].JObj? && IsStrList(AcIdsOrEmpty(gs[i]))
    ensures Crash(gs, total, p).None?
  {
  }

  /** The validator returns a verdict unless the `groups` list makes it raise. */
  lemma ValidateOkUnlessCrash(obj: Json, acMap: AcMap, p: Limits, nonEmpty: bool)
    requires GroupsOf(obj).Some? ==> Crash(GroupsOf(obj).value, |acMap|, p).None?
    ensures Validate(obj, acMap, p, nonEmpty).Ok?
  {
  }

  /** The validator never raises on a normalised proposal. */
  lemma NormalizedNeverRaises(gs: seq<Group>, meta: Json, acMap: AcMap, p: Limits, nonEmpty: bool)
    requires forall i :: 0 <= i < |gs| ==> WellFormedGroup(gs[i])
    ensures Validate(GroupingJson(gs, meta), acMap, p, nonEmpty).Ok?
  {
    GroupsOfGroupingJson(gs, meta);
    var js := GroupsToJson(gs);
    forall i | 0 <= i < |js| ensures js[i].JObj? && IsStrList(AcIdsOrEmpty(js[i])) {
      GroupJsonFields(gs[i]);
      StrArrIsStrList(gs[i].acIds);
    }
    StrListsNoCrash(js, |acMap|, p);
    ValidateOkUnlessCrash(GroupingJson(gs, meta), acMap, p, nonEmpty);
  }

  /** The verdict on a normalised proposal: ok exactly when its groups are non-empty and
      `AcceptableGroups`. */
  lemma ValidateNormalized(gs: seq<Group>, meta: Json, acMap: AcMap, p: Limits, nonEmpty: bool)
    requires forall i :: 0 <= i < |gs| ==> WellFormedGroup(gs[i])
    ensures var r := Validate(GroupingJson(gs, meta), acMap, p, nonEmpty);
      r.Ok? && (r.value.ok <==> |gs| > 0 && AcceptableGroups(gs, acMap, p, nonEmpty))
  {
    NormalizedNeverRaises(gs, meta, acMap, p, nonEmpty);
    GroupsOfGroupingJson(gs, meta);
    ValidateOkIff(GroupingJson(gs, meta), acMap, p, nonEmpty);
    AcceptableNormalized(gs, acMap, p, nonEmpty);
  }

  // ---------------------------------------------------------------------------
  // The empty id list
  // ---------------------------------------------------------------------------

  /** Five ACs with empty texts. */
  const FIVE_ACS: AcMap := [("AC-1", ""), ("AC-2", ""), ("AC-3", ""), ("AC-4", ""), ("AC-5", "")]

  /** G01 holds all five ACs, G02 holds none. */
  const WITH_EMPTY_GROUP: seq<Group> := [
    Group("G01", ["AC-1", "AC-2", "AC-3", "AC-4", "AC-5"], "", "", []),
    Group("G02", [], "", "", [])]

  lemma EmptyTextOther(acMap: AcMap, ids: seq<string>, k: Kind)
    requires forall i :: 0 <= i < |acMap| ==> acMap[i].1 == ""
    requires k != Other
    ensures !IdsHaveKind(ids, acMap, k)
  {
    LogKindEmpty();
    forall i | 0 <= i < |ids| && HasKey(acMap, ids[i]) ensures TextOf(acMap, ids[i]) == "" {
    }
  }

  lemma WithEmptyGroupWellFormed()
    ensures forall i :: 0 <= i < |WITH_EMPTY_GROUP| ==> WellFormedGroup(WITH_EMPTY_GROUP[i])
  {
    var gs := WITH_EMPTY_GROUP;
    assert WellFormedGroup(gs[0]);
    assert WellFormedGroup(gs[1]);
  }

  lemma WithEmptyGroupCoverage()
    ensures AllAcIds(WITH_EMPTY_GROUP) == Keys(FIVE_ACS)
  {
    var gs := WITH_EMPTY_GROUP;
    assert AllAcIds(gs[1..][1..]) == [];
    assert AllAcIds(gs[1..]) == [];
    assert AllAcIds(gs) == gs[0].acIds;
    var k := Keys(FIVE_ACS);
    assert k[0] == "AC-1" && k[1] == "AC-2" && k[2] == "AC-3" && k[3] == "AC-4" && k[4] == "AC-5";
  }

  lemma FiveAcsNoAudit(ids: seq<string>)
    ensures !IdsHaveKind(ids, FIVE_ACS, Audit)
  {
    assert forall i :: 0 <= i < |FIVE_ACS| ==> FIVE_ACS[i].1 == "";
    EmptyTextOther(FIVE_ACS, ids, Audit);
  }

  lemma WithEmptyGroupIds()
    ensures Distinct(GroupIdsOf(WITH_EMPTY_GROUP))
  {
    assert GroupIdsOf(WITH_EMPTY_GROUP) == ["G01", "G02"];
    assert "G01"[2] != "G02"[2];
  }

  /** The proposal's sizes under any limits that allow a group of five. */
  lemma WithEmptyGroupSizes(p: Limits)
    requires p.maxPerGroup >= 5 && p.minGroupSize <= 5
    ensures forall i :: 0 <= i < |WITH_EMPTY_GROUP| ==> |WITH_EMPTY_GROUP[i].acIds| <= p.maxPerGroup
    ensures forall i :: 0 <= i < |WITH_EMPTY_GROUP| ==> !(1 <= |WITH_EMPTY_GROUP[i].acIds| < p.minGroupSize)
  {
    var gs := WITH_EMPTY_GROUP;
    assert |gs| == 2 && |gs[0].acIds| == 5 && |gs[1].acIds| == 0;
  }

  /** The proposal is acceptable, as written, under any limits that allow two groups and a
      group of five. */
  lemma WithEmptyGroupAcceptable(p: Limits)
    requires p.maxPerGroup >= 5 && p.maxGroups >= 2 && p.minGroupSize <= 5
    ensures AcceptableGroups(WITH_EMPTY_GROUP, FIVE_ACS, p, false)
  {
    var gs := WITH_EMPTY_GROUP;
    WithEmptyGroupSizes(p);
    WithEmptyGroupIds();
    WithEmptyGroupCoverage();
    FiveAcsNoAudit(gs[0].acIds);
    FiveAcsNoAudit(gs[1].acIds);
  }

  /** As written, a proposal with a group of no ids passes, although the docstring and the
      message both require a non-empty list: with the default limits and five ACs (so the
      orphan check is active), `{G01: all five, G02: []}` is ok. */
  lemma EmptyGroupAccepted()
    ensures var r := ValidateGrouping(GroupingJson(WITH_EMPTY_GROUP, JObj(map[])), FIVE_ACS, DEFAULT_LIMITS);
      r.Ok? && r.value.ok && |WITH_EMPTY_GROUP[1].acIds| == 0
  {
    WithEmptyGroupWellFormed();
    WithEmptyGroupAcceptable(DEFAULT_LIMITS);
    ValidateNormalized(WITH_EMPTY_GROUP, JObj(map[]), FIVE_ACS, DEFAULT_LIMITS, false);
  }

  /** With the corrected id-list check the same proposal is rejected. */
  lemma EmptyGroupRejectedWhenStrict()
    ensures var r := ValidateGroupingStrict(GroupingJson(WITH_EMPTY_GROUP, JObj(map[])), FIVE_ACS, DEFAULT_LIMITS);
      r.Ok? && !r.value.ok
  {
    WithEmptyGroupWellFormed();
    ValidateNormalized(WITH_EMPTY_GROUP, JObj(map[]), FIVE_ACS, DEFAULT_LIMITS, true);
    assert |WITH_EMPTY_GROUP[1].acIds| == 0;
  }

  /** The corrected validator's promise: an ok proposal has no group without ids. */
  lemma StrictOkGroupsNonEmpty(obj: Json, acMap: AcMap, p: Limits)
    requires ValidateGroupingStrict(obj, acMap, p).Ok? && ValidateGroupingStrict(obj, acMap, p).value.ok
    ensures GroupsOf(obj).Some?
    ensures forall i :: 0 <= i < |GroupsOf(obj).value| ==>
      AcIdsOf(GroupsOf(obj).value[i]).JArr? && |AcIdsOf(GroupsOf(obj).value[i]).items| > 0
  {
    ValidateOkIff(obj, acMap, p, true);
  }
}
