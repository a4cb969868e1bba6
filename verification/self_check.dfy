/**
 * The planner's own account of a grouping, attached to every result as
 * `meta.self_check` (`build_self_check` and its twin `build_self_check_py`):
 * group sizes, orphan groups, missing, duplicate and unknown ids, and
 * whether audit and security logs stay apart. Also `split_issues`, which
 * sorts validator messages into hard issues and warnings.
 */
module SelfCheck {
  import opened Wrappers
  import opened Strings
  import opened Seqs
  import opened PyJson
  import opened AcMaps
  import opened GroupingSchema
  import opened GroupingValidate

  // ---------------------------------------------------------------------------
  // The two log classifiers
  // ---------------------------------------------------------------------------

  /** The security keywords of `self_check.py`: the katakana "brute" is not among them. */
  const SHORT_SECURITY_KEYS: seq<string> := ["security log", "セキュリティログ", "brute"]

  /** `_kind` inside `build_self_check`. */
  function ShortKind(acText: string): Kind {
    LogKindBy(AUDIT_KEYS, SHORT_SECURITY_KEYS, LOG_KEYS, acText)
  }

  /** `_kind` inside `build_self_check_py`, whose keywords are those of `_log_kind`. */
  function FullKind(acText: string): Kind {
    LogKind(acText)
  }

  // ---------------------------------------------------------------------------
  // What one group contributes
  // ---------------------------------------------------------------------------

  /** `g.get("ac_ids") or []`, kept only when it is a list (anything else counts as `[]`). */
  function RawIds(g: Json): seq<Json> {
    if g.JObj? && Get(g.fields, "ac_ids", JNull).JArr? then Get(g.fields, "ac_ids", JNull).items else []
  }

  /** `[str(x) for x in ac_ids if isinstance(x, str)]`: unlike the validator, blank strings stay. */
  function StrElems(items: seq<Json>): (r: seq<string>)
    ensures |r| <= |items|
  {
    if |items| == 0 then [] else (if items[0].JStr? then [items[0].s] else []) + StrElems(items[1..])
  }

  /** The string ids of one group. */
  function IdsOfGroup(g: Json): seq<string> {
    StrElems(RawIds(g))
  }

  /** `assigned`: the string ids of every dictionary group, in group order. */
  function AssignedIds(gs: seq<Json>): seq<string> {
    if |gs| == 0 then [] else IdsOfGroup(gs[0]) + AssignedIds(gs[1..])
  }

  /** `group_sizes`: one entry per dictionary group. */
  function GroupSizes(gs: seq<Json>): (r: seq<nat>)
    ensures |r| == CountObjects(gs)
  {
    if |gs| == 0 then [] else (if gs[0].JObj? then [|IdsOfGroup(gs[0])|] else []) + GroupSizes(gs[1..])
  }

  function Sum(xs: seq<nat>): nat {
    if |xs| == 0 then 0 else xs[0] + Sum(xs[1..])
  }

  lemma SumCons(x: nat, xs: seq<nat>)
    ensures Sum([x] + xs) == x + Sum(xs)
  {
    assert ([x] + xs)[1..] == xs;
  }

  /** The sizes add up to the number of assigned ids. */
  lemma {:induction false} GroupSizesSum(gs: seq<Json>)
    ensures Sum(GroupSizes(gs)) == |AssignedIds(gs)|
  {
    if |gs| > 0 {
      GroupSizesSum(gs[1..]);
      if gs[0].JObj? {
        SumCons(|IdsOfGroup(gs[0])|, GroupSizes(gs[1..]));
      } else {
        assert GroupSizes(gs) == GroupSizes(gs[1..]);
      }
    }
  }

  // ---------------------------------------------------------------------------
  // Orphan groups
  // ---------------------------------------------------------------------------

  /** A dictionary group with fewer than `minGroupSize` string ids, none at all included. */
  predicate Small(g: Json, minGroupSize: int) {
    g.JObj? && |IdsOfGroup(g)| < minGroupSize
  }

  /** `[g.get("group_id", "?"), sz]`. */
  function OrphanEntry(g: Json): (Json, nat) {
    (GroupIdOrMark(g), |IdsOfGroup(g)|)
  }

  /** `orphan_groups`. */
  function SmallGroups(gs: seq<Json>, minGroupSize: int): seq<(Json, nat)> {
    if |gs| == 0 then []
    else (if Small(gs[0], minGroupSize) then [OrphanEntry(gs[0])] else []) + SmallGroups(gs[1..], minGroupSize)
  }

  /** Every small dictionary group is listed, and nothing else is. */
  lemma {:induction false} SmallGroupsSpec(gs: seq<Json>, minGroupSize: int)
    ensures forall i :: 0 <= i < |gs| && Small(gs[i], minGroupSize) ==> OrphanEntry(gs[i]) in SmallGroups(gs, minGroupSize)
    ensures forall o :: o in SmallGroups(gs, minGroupSize) ==>
      exists i :: 0 <= i < |gs| && Small(gs[i], minGroupSize) && o == OrphanEntry(gs[i])
  {
    if |gs| > 0 {
      SmallGroupsSpec(gs[1..], minGroupSize);
      assert forall i :: 0 < i < |gs| ==> gs[i] == gs[1..][i - 1];
      forall o | o in SmallGroups(gs, minGroupSize)
        ensures exists i :: 0 <= i < |gs| && Small(gs[i], minGroupSize) && o == OrphanEntry(gs[i])
      {
        if o !in SmallGroups(gs[1..], minGroupSize) {
          assert Small(gs[0], minGroupSize) && o == OrphanEntry(gs[0]);
        } else {
          var i :| 0 <= i < |gs[1..]| && Small(gs[1..][i], minGroupSize) && o == OrphanEntry(gs[1..][i]);
          assert gs[i + 1] == gs[1..][i];
        }
      }
    }
  }

  // ---------------------------------------------------------------------------
  // The log-split loop
  // ---------------------------------------------------------------------------

  /** Some string id of `items` is an AC whose text `kindOf` puts in kind `k`. */
  predicate HasKindBy(items: seq<Json>, acMap: AcMap, kindOf: string -> Kind, k: Kind) {
    exists i :: 0 <= i < |items| && items[i].JStr? && HasKey(acMap, items[i].s) && kindOf(TextOf(acMap, items[i].s)) == k
  }

  /** A group holding both an audit-log and a security-log AC. */
  predicate MixedBy(g: Json, acMap: AcMap, kindOf: string -> Kind) {
    HasKindBy(RawIds(g), acMap, kindOf, Audit) && HasKindBy(RawIds(g), acMap, kindOf, Security)
  }

  /** `a in ac_map` raises `TypeError` on a list or dictionary element. */
  predicate HashableIds(g: Json) {
    forall j :: 0 <= j < |RawIds(g)| ==> !Unhashable(RawIds(g)[j])
  }

  /** The loop computing `log_split_ok`: it stops at the first mixed group, and raises when
      it meets an unhashable id on the way. */
  function LogSplit(gs: seq<Json>, acMap: AcMap, kindOf: string -> Kind): Result<bool> {
    if |gs| == 0 then Ok(true)
    else if !HashableIds(gs[0]) then Err("TypeError: unhashable type")
    else if MixedBy(gs[0], acMap, kindOf) then Ok(false)
    else LogSplit(gs[1..], acMap, kindOf)
  }

  /** The loop's answer, when it has one, says whether some group mixes the two kinds. */
  lemma {:induction false} LogSplitValue(gs: seq<Json>, acMap: AcMap, kindOf: string -> Kind)
    requires LogSplit(gs, acMap, kindOf).Ok?
    ensures LogSplit(gs, acMap, kindOf).value <==> forall i :: 0 <= i < |gs| ==> !MixedBy(gs[i], acMap, kindOf)
  {
    if |gs| > 0 && !MixedBy(gs[0], acMap, kindOf) {
      LogSplitValue(gs[1..], acMap, kindOf);
      assert forall i :: 0 < i < |gs| ==> gs[i] == gs[1..][i - 1];
    }
  }

  /** No mixed group among the first `n`. */
  predicate NoneMixedBefore(gs: seq<Json>, n: int, acMap: AcMap, kindOf: string -> Kind)
    requires n <= |gs|
  {
    forall j :: 0 <= j < n ==> !MixedBy(gs[j], acMap, kindOf)
  }

  /** The loop raises exactly when an unhashable id comes before the first mixed group. */
  lemma {:induction false} LogSplitRaises(gs: seq<Json>, acMap: AcMap, kindOf: string -> Kind)
    ensures LogSplit(gs, acMap, kindOf).Err? <==>
      exists i :: 0 <= i < |gs| && !HashableIds(gs[i]) && NoneMixedBefore(gs, i, acMap, kindOf)
  {
    if |gs| > 0 && HashableIds(gs[0]) && !MixedBy(gs[0], acMap, kindOf) {
      var t := gs[1..];
      LogSplitRaises(t, acMap, kindOf);
      if LogSplit(t, acMap, kindOf).Err? {
        var i :| 0 <= i < |t| && !HashableIds(t[i]) && NoneMixedBefore(t, i, acMap, kindOf);
        assert gs[i + 1] == t[i];
        assert NoneMixedBefore(gs, i + 1, acMap, kindOf) by {
          forall j | 0 < j < i + 1 ensures !MixedBy(gs[j], acMap, kindOf) {
            assert gs[j] == t[j - 1];
          }
        }
      }
      if exists i :: 0 <= i < |gs| && !HashableIds(gs[i]) && NoneMixedBefore(gs, i, acMap, kindOf) {
        var i :| 0 <= i < |gs| && !HashableIds(gs[i]) && NoneMixedBefore(gs, i, acMap, kindOf);
        assert t[i - 1] == gs[i];
        assert NoneMixedBefore(t, i - 1, acMap, kindOf) by {
          forall j | 0 <= j < i - 1 ensures !MixedBy(t[j], acMap, kindOf) {
            assert t[j] == gs[j + 1];
          }
        }
      }
    } else if |gs| > 0 && !HashableIds(gs[0]) {
      assert NoneMixedBefore(gs, 0, acMap, kindOf);
    } else if |gs| > 0 {
      forall i | 0 < i < |gs| ensures !NoneMixedBefore(gs, i, acMap, kindOf) {
        assert MixedBy(gs[0], acMap, kindOf);
      }
    }
  }

  /** A list of hashable ids never makes the loop raise. */
  lemma LogSplitNoCrash(gs: seq<Json>, acMap: AcMap, kindOf: string -> Kind)
    requires forall i :: 0 <= i < |gs| ==> HashableIds(gs[i])
    ensures LogSplit(gs, acMap, kindOf).Ok?
  {
    LogSplitRaises(gs, acMap, kindOf);
  }

  lemma LogSplitFacts(gs: seq<Json>, acMap: AcMap, kindOf: string -> Kind)
    ensures LogSplit(gs, acMap, kindOf).Ok? ==>
      (LogSplit(gs, acMap, kindOf).value <==> forall i :: 0 <= i < |gs| ==> !MixedBy(gs[i], acMap, kindOf))
    ensures (forall i :: 0 <= i < |gs| ==> HashableIds(gs[i])) ==> LogSplit(gs, acMap, kindOf).Ok?
  {
    if LogSplit(gs, acMap, kindOf).Ok? {
      LogSplitValue(gs, acMap, kindOf);
    }
    LogSplitRaises(gs, acMap, kindOf);
  }

  // ---------------------------------------------------------------------------
  // The report
  // ---------------------------------------------------------------------------

  datatype Report = Report(
    nAcs: nat,
    groupsCount: nat,
    groupSizes: seq<nat>,
    maxAcPerGroup: int,
    minGroupSize: int,
    missingIds: seq<string>,
    duplicateIds: seq<string>,
    unknownIds: seq<string>,
    orphanGroups: seq<(Json, nat)>,
    logSplitOk: bool,
    relaxations: seq<string>)

  /** The body shared by both self-checks, over the log classifier each of them uses. */
  function BuildWith(gs: seq<Json>, acMap: AcMap, maxAcPerGroup: int, minGroupSize: int,
                     relaxations: seq<string>, kindOf: string -> Kind): (r: Result<Report>)
    ensures r.Ok? <==> LogSplit(gs, acMap, kindOf).Ok?
    ensures r.Ok? ==>
      var c := r.value; var ids := AssignedIds(gs);
      && c.nAcs == |acMap| && c.relaxations == relaxations
      && c.groupsCount == |c.groupSizes| == CountObjects(gs)
      && (forall a :: a in c.missingIds <==> a in Keys(acMap) && a !in ids)
      && IsSubseq(c.missingIds, Keys(acMap))
      && SortedStrings(c.duplicateIds) && Distinct(c.duplicateIds)
      && (forall a :: a in c.duplicateIds <==> multiset(ids)[a] >= 2)
      && (forall a :: multiset(c.unknownIds)[a] == if a in Keys(acMap) then 0 else multiset(ids)[a])
  {
    var ids := AssignedIds(gs);
    var keys := Keys(acMap);
    FilterSubseq(keys, a => a !in ids);
    var split :- LogSplit(gs, acMap, kindOf);
    Ok(Report(
      |acMap|, CountObjects(gs), GroupSizes(gs), maxAcPerGroup, minGroupSize,
      Missing(keys, ids), Duplicated(ids), Unknown(keys, ids),
      SmallGroups(gs, minGroupSize), split, relaxations))
  }

  /** `build_self_check`: its log answer uses the short security keyword list. */
  function BuildSelfCheck(gs: seq<Json>, acMap: AcMap, maxAcPerGroup: int, minGroupSize: int,
                          relaxations: seq<string>): (r: Result<Report>)
    ensures r.Ok? ==> (r.value.logSplitOk <==> forall i :: 0 <= i < |gs| ==> !MixedBy(gs[i], acMap, ShortKind))
    ensures (forall i :: 0 <= i < |gs| ==> HashableIds(gs[i])) ==> r.Ok?
  {
    LogSplitFacts(gs, acMap, ShortKind);
    BuildWith(gs, acMap, maxAcPerGroup, minGroupSize, relaxations, ShortKind)
  }

  /** `build_self_check_py`: its log answer uses the validator's keyword lists. */
  function BuildSelfCheckPy(gs: seq<Json>, acMap: AcMap, maxAcPerGroup: int, minGroupSize: int,
                            relaxations: seq<string>): (r: Result<Report>)
    ensures r.Ok? ==> (r.value.logSplitOk <==> forall i :: 0 <= i < |gs| ==> !MixedBy(gs[i], acMap, FullKind))
    ensures (forall i :: 0 <= i < |gs| ==> HashableIds(gs[i])) ==> r.Ok?
  {
    LogSplitFacts(gs, acMap, FullKind);
    BuildWith(gs, acMap, maxAcPerGroup, minGroupSize, relaxations, FullKind)
  }

  /** The orphan list of a report names exactly the small dictionary groups. */
  lemma ReportOrphans(gs: seq<Json>, acMap: AcMap, maxAcPerGroup: int, minGroupSize: int,
                      relaxations: seq<string>, kindOf: string -> Kind)
    requires BuildWith(gs, acMap, maxAcPerGroup, minGroupSize, relaxations, kindOf).Ok?
    ensures var c := BuildWith(gs, acMap, maxAcPerGroup, minGroupSize, relaxations, kindOf).value;
      && (forall i :: 0 <= i < |gs| && Small(gs[i], minGroupSize) ==> OrphanEntry(gs[i]) in c.orphanGroups)
      && (forall o :: o in c.orphanGroups ==> exists i :: 0 <= i < |gs| && Small(gs[i], minGroupSize) && o == OrphanEntry(gs[i]))
      && Sum(c.groupSizes) == |AssignedIds(gs)|
  {
    SmallGroupsSpec(gs, minGroupSize);
    GroupSizesSum(gs);
  }

  /** The katakana "brute" separates the two classifiers: only the validator's list calls it
      a security log. */
  lemma KatakanaBruteDiffers()
    ensures ShortKind("ブルート") == Other && FullKind("ブルート") == Security
  {
    var t := "ブルート";
    assert Lower(t) == t;
    assert Contains(t, SECURITY_LOG_KEYS[2]);
    NotContained(t, AUDIT_KEYS);
    NotContained(t, SHORT_SECURITY_KEYS);
    NotContained(t, LOG_KEYS);
  }

  /** No key of `keys` occurs in `t` when no key's first character does. */
  lemma NotContained(t: string, keys: seq<string>)
    requires forall k :: 0 <= k < |keys| ==> |keys[k]| > 0 && keys[k][0] !in t
    ensures !ContainsAny(t, keys)
  {
    forall k | 0 <= k < |keys| ensures !Contains(t, keys[k]) {
      FirstCharAbsent(t, keys[k]);
    }
  }

  lemma {:induction false} FirstCharAbsent(t: string, p: string)
    requires |p| > 0 && p[0] !in t
    ensures !Contains(t, p)
  {
    if |t| > 0 {
      assert t[0] in t;
      assert forall c :: c in t[1..] ==> c in t;
      FirstCharAbsent(t[1..], p);
    }
  }

  // ---------------------------------------------------------------------------
  // A clean report
  // ---------------------------------------------------------------------------

  /** Nothing missing, duplicated or unknown exactly when the ids assign every AC once. */
  lemma CleanIffExactOnce(ids: seq<string>, acMap: AcMap)
    ensures (Missing(Keys(acMap), ids) == [] && Duplicated(ids) == [] && Unknown(Keys(acMap), ids) == [])
        <==> multiset(ids) == multiset(Keys(acMap))
  {
    var keys := Keys(acMap);
    DistinctImpliesCountsAtMostOne(keys);
    if Missing(keys, ids) == [] && Duplicated(ids) == [] && Unknown(keys, ids) == [] {
      forall a ensures multiset(ids)[a] == multiset(keys)[a] {
        if a in keys {
          assert a !in Missing(keys, ids);
        } else {
          assert a !in Unknown(keys, ids);
        }
        assert a !in Duplicated(ids);
      }
    }
    if multiset(ids) == multiset(keys) {
      assert forall a :: a in ids <==> a in keys by {
        forall a ensures a in ids <==> a in keys {
          assert a in ids <==> multiset(ids)[a] > 0;
          assert a in keys <==> multiset(keys)[a] > 0;
        }
      }
      EmptyIfNoMember(Missing(keys, ids));
      EmptyIfNoMember(Duplicated(ids));
      EmptyIfNoMember(Unknown(keys, ids));
    }
  }

  lemma EmptyIfNoMember<T>(s: seq<T>)
    ensures s == [] <==> forall x :: x !in s
  {
    if |s| > 0 {
      assert s[0] in s;
    }
  }

  // ---------------------------------------------------------------------------
  // The self-check of normalised groups
  // ---------------------------------------------------------------------------

  lemma {:induction false} StrElemsOfStrArr(xs: seq<string>)
    ensures StrElems(StrArr(xs).items) == xs
  {
    if |xs| > 0 {
      StrElemsOfStrArr(xs[1..]);
      assert StrArr(xs).items[1..] == StrArr(xs[1..]).items;
    }
  }

  /** A normalised group's ids are the strings the self-check sees. */
  lemma GroupJsonIds(g: Group)
    ensures RawIds(GroupToJson(g)) == StrArr(g.acIds).items
    ensures IdsOfGroup(GroupToJson(g)) == g.acIds
    ensures HashableIds(GroupToJson(g))
  {
    assert Get(GroupToJson(g).fields, "ac_ids", JNull) == StrArr(g.acIds);
    StrElemsOfStrArr(g.acIds);
  }

  /** The self-check's `assigned` on serialised groups is the groups' own id list. */
  lemma {:induction false} AssignedOfGroups(gs: seq<Group>)
    ensures AssignedIds(GroupsToJson(gs)) == AllAcIds(gs)
  {
    if |gs| > 0 {
      AssignedOfGroups(gs[1..]);
      GroupJsonIds(gs[0]);
      assert GroupsToJson(gs)[1..] == GroupsToJson(gs[1..]);
    }
  }

  /** Neither self-check raises on serialised groups. */
  lemma GroupsNeverRaise(gs: seq<Group>)
    ensures forall i :: 0 <= i < |GroupsToJson(gs)| ==> HashableIds(GroupsToJson(gs)[i])
  {
    forall i | 0 <= i < |gs| ensures HashableIds(GroupsToJson(gs)[i]) {
      GroupJsonIds(gs[i]);
    }
  }

  /** Groups that assign every AC exactly once get a clean report: nothing missing,
      duplicated or unknown. */
  lemma PartitionReportsClean(gs: seq<Group>, acMap: AcMap, maxAcPerGroup: int, minGroupSize: int,
                              relaxations: seq<string>)
    requires multiset(AllAcIds(gs)) == multiset(Keys(acMap))
    ensures var r := BuildSelfCheckPy(GroupsToJson(gs), acMap, maxAcPerGroup, minGroupSize, relaxations);
      r.Ok? && r.value.missingIds == [] && r.value.duplicateIds == [] && r.value.unknownIds == []
  {
    GroupsNeverRaise(gs);
    AssignedOfGroups(gs);
    CleanIffExactOnce(AllAcIds(gs), acMap);
  }

  // ---------------------------------------------------------------------------
  // split_issues
  // ---------------------------------------------------------------------------

  /** `isinstance(x, str) and x.strip().lower().startswith("warning:")`. */
  predicate IsWarnItem(x: Json) {
    x.JStr? && StartsWith(Lower(Strip(x.s)), "warning:")
  }

  predicate IsHardItem(x: Json) {
    !IsWarnItem(x)
  }

  /** `str(x).strip()`. */
  function ItemText(x: Json): string {
    Strip(PyStr(x))
  }

  /** `[text(x) for x in xs if keep(x)]`. */
  function Picked<T>(xs: seq<T>, keep: T -> bool, text: T -> string): seq<string> {
    if |xs| == 0 then []
    else (if keep(xs[0]) then [text(xs[0])] else []) + Picked(xs[1..], keep, text)
  }

  lemma {:induction false} PickedSnoc<T>(s: seq<T>, x: T, keep: T -> bool, text: T -> string)
    ensures Picked(s + [x], keep, text) == Picked(s, keep, text) + (if keep(x) then [text(x)] else [])
  {
    if |s| == 0 {
      assert s + [x] == [x];
    } else {
      assert (s + [x])[1..] == s[1..] + [x];
      PickedSnoc(s[1..], x, keep, text);
    }
  }

  /** One more item of a prefix. */
  lemma PickedStep<T>(s: seq<T>, i: nat, keep: T -> bool, text: T -> string)
    requires i < |s|
    ensures Picked(s[..i + 1], keep, text) == Picked(s[..i], keep, text) + (if keep(s[i]) then [text(s[i])] else [])
  {
    assert s[..i + 1] == s[..i] + [s[i]];
    PickedSnoc(s[..i], s[i], keep, text);
  }

  /** An item and its complement split a list between them. */
  lemma {:induction false} PickedCount<T>(xs: seq<T>, p: T -> bool, q: T -> bool, text: T -> string)
    requires forall x :: q(x) == !p(x)
    ensures |Picked(xs, p, text)| + |Picked(xs, q, text)| == |xs|
  {
    if |xs| > 0 {
      PickedCount(xs[1..], p, q, text);
    }
  }

  /** Every kept item's text is in the list. */
  lemma {:induction false} PickedMembership<T>(xs: seq<T>, i: nat, keep: T -> bool, text: T -> string)
    requires i < |xs| && keep(xs[i])
    ensures text(xs[i]) in Picked(xs, keep, text)
  {
    var head := if keep(xs[0]) then [text(xs[0])] else [];
    assert Picked(xs, keep, text) == head + Picked(xs[1..], keep, text);
    if i > 0 {
      assert xs[1..][i - 1] == xs[i];
      PickedMembership(xs[1..], i - 1, keep, text);
    }
  }

  /** Nothing is kept exactly when no item qualifies. */
  lemma {:induction false} PickedEmptyIff<T>(xs: seq<T>, keep: T -> bool, text: T -> string)
    ensures Picked(xs, keep, text) == [] <==> forall i :: 0 <= i < |xs| ==> !keep(xs[i])
  {
    if |xs| > 0 {
      PickedEmptyIff(xs[1..], keep, text);
      assert forall i :: 0 < i < |xs| ==> xs[i] == xs[1..][i - 1];
    }
  }

  /** `split_issues`: every issue lands in exactly one of the two lists, in order; a warning
      is an item whose stripped, lower-cased text starts with `warning:`. */
  method SplitIssues(issues: seq<Json>) returns (hard: seq<string>, warn: seq<string>)
    ensures hard == Picked(issues, IsHardItem, ItemText) && warn == Picked(issues, IsWarnItem, ItemText)
    ensures |hard| + |warn| == |issues|
  {
    hard, warn := [], [];
    for i := 0 to |issues|
      invariant hard == Picked(issues[..i], IsHardItem, ItemText) && warn == Picked(issues[..i], IsWarnItem, ItemText)
    {
      var x := issues[i];
      PickedStep(issues, i, IsHardItem, ItemText);
      PickedStep(issues, i, IsWarnItem, ItemText);
      if IsWarnItem(x) {
        assert ItemText(x) == Strip(x.s);
        warn := warn + [Strip(x.s)];
      } else {
        hard := hard + [ItemText(x)];
      }
    }
    assert issues[..|issues|] == issues;
    PickedCount(issues, IsWarnItem, IsHardItem, ItemText);
  }

  /** The validator's messages, as the list of strings it returns. */
  function IssueStrs(issues: seq<Issue>): (r: seq<Json>)
    ensures |r| == |issues|
    ensures forall i :: 0 <= i < |issues| ==> r[i] == JStr(issues[i].Text())
  {
    seq(|issues|, i requires 0 <= i < |issues| => JStr(issues[i].Text()))
  }

  /** A message that starts with `warning:` is still a warning once stripped and lower-cased. */
  lemma WarningSurvives(t: string)
    requires StartsWith(t, "warning:")
    ensures IsWarnItem(JStr(t))
  {
    StripKeepsPrefix(t, "warning:");
    LowerKeepsPrefix(Strip(t), "warning:");
    assert Lower("warning:") == "warning:";
  }

  /** A message whose first character is a lower-case letter other than `w` is never one. */
  lemma OtherLetterNoWarning(t: string)
    requires |t| > 0 && 'a' <= t[0] <= 'z' && t[0] != 'w'
    ensures !IsWarnItem(JStr(t))
  {
    StripFirstChar(t);
    assert Lower(Strip(t))[0] == t[0];
  }

  /** The stricter test of `split_issues` agrees with the issue's kind on every message the
      validator words. */
  lemma IssueWarnIff(x: Issue)
    ensures IsWarnItem(JStr(x.Text())) <==> x.IsWarning()
  {
    HeadOfWarning(x);
    if x.IsWarning() {
      WarningTextIff(x);
      WarningSurvives(x.Text());
    } else {
      assert x.Text()[0] == x.Head()[0];
      OtherLetterNoWarning(x.Text());
    }
  }

  /** A verdict of the validator is ok exactly when none of its issues is hard. */
  lemma VerdictOkIffNoHard(obj: Json, acMap: AcMap, p: Limits, nonEmpty: bool)
    requires Validate(obj, acMap, p, nonEmpty).Ok?
    ensures var v := Validate(obj, acMap, p, nonEmpty).value; v.ok <==> NoHard(v.issues)
  {
    var v := Validate(obj, acMap, p, nonEmpty).value;
    if obj.JObj? && GroupsOf(obj).Some? && |GroupsOf(obj).value| > 0 {
      var issues := AllIssues(GroupsOf(obj).value, acMap, p, nonEmpty);
      assert v == Verdict(AllWarningTexts(Texts(issues)), issues);
      AllWarningsIff(issues);
    } else {
      assert !v.issues[0].IsWarning() && v.issues[0] in v.issues;
    }
  }

  /** On the validator's own messages, `split_issues` finds no hard issue exactly when the
      verdict is ok. */
  lemma SplitAgreesWithVerdict(obj: Json, acMap: AcMap, p: Limits, nonEmpty: bool)
    requires Validate(obj, acMap, p, nonEmpty).Ok?
    ensures var v := Validate(obj, acMap, p, nonEmpty).value; Picked(IssueStrs(v.issues), IsHardItem, ItemText) == [] <==> v.ok
  {
    var v := Validate(obj, acMap, p, nonEmpty).value;
    VerdictOkIffNoHard(obj, acMap, p, nonEmpty);
    PickedEmptyIff(IssueStrs(v.issues), IsHardItem, ItemText);
    forall i | 0 <= i < |v.issues| ensures IsWarnItem(IssueStrs(v.issues)[i]) <==> v.issues[i].IsWarning() {
      IssueWarnIff(v.issues[i]);
    }
  }
}
