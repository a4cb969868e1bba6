/**
 * Helpers and the defensive normaliser for grouping proposals
 * (`grouping/schema.py`): a proposal from the text-synthesis service is
 * reshaped into well-formed groups before any validation runs.
 */
module GroupingSchema {
  import opened Wrappers
  import opened Strings
  import opened Seqs
  import opened PyJson
  import opened Keywords

  const DEFAULT_MAX_AC_PER_GROUP: int := 10
  const DEFAULT_TARGET_GROUPS_MIN: int := 8
  const DEFAULT_TARGET_GROUPS_MAX: int := 12
  const DEFAULT_MAX_GROUPS: int := 15
  const DEFAULT_MIN_GROUP_SIZE: int := 3

  // ---------------------------------------------------------------------------
  // _is_str_list, _dedup_preserve
  // ---------------------------------------------------------------------------

  /** `_is_str_list`: a list whose every element is a string with a non-blank character.
      An empty list qualifies. */
  predicate IsStrList(v: Json) {
    v.JArr? && forall i :: 0 <= i < |v.items| ==> v.items[i].JStr? && !Blank(v.items[i].s)
  }

  /** Position of the first occurrence of `x` in `xs`. */
  function FirstIndex<T(==)>(xs: seq<T>, x: T): (i: nat)
    requires x in xs
    ensures i < |xs| && xs[i] == x
    ensures forall j :: 0 <= j < i ==> xs[j] != x
  {
    if xs[0] == x then 0 else 1 + FirstIndex(xs[1..], x)
  }

  /** The elements of `r` appear in the order of their first occurrence in `xs`. */
  predicate FirstOccurrenceOrder<T(==)>(r: seq<T>, xs: seq<T>) {
    forall i, j :: 0 <= i < j < |r| && r[i] in xs && r[j] in xs ==> FirstIndex(xs, r[i]) < FirstIndex(xs, r[j])
  }

  /** `_dedup_preserve`: drop repeated elements, keeping first occurrences in order. */
  function DedupPreserve<T(==,!new)>(xs: seq<T>): (r: seq<T>)
    ensures Distinct(r)
    ensures forall x :: x in r <==> x in xs
    ensures |r| <= |xs|
  {
    if |xs| == 0 then []
    else
      var p := DedupPreserve(xs[..|xs| - 1]);
      var x := xs[|xs| - 1];
      assert xs == xs[..|xs| - 1] + [x];
      if x in p then p else p + [x]
  }

  /** On a list without repeats the dedup is the identity. */
  lemma {:induction false} DedupOfDistinct<T(!new)>(xs: seq<T>)
    requires Distinct(xs)
    ensures DedupPreserve(xs) == xs
  {
    if |xs| > 0 {
      var pre := xs[..|xs| - 1];
      assert Distinct(pre);
      DedupOfDistinct(pre);
      assert xs[|xs| - 1] !in pre;
      assert xs == pre + [xs[|xs| - 1]];
    }
  }

  /** An element of `pre` has the same first position in `pre + [x]`. */
  lemma FirstIndexPrefix<T>(pre: seq<T>, x: T, y: T)
    requires y in pre
    ensures FirstIndex(pre + [x], y) == FirstIndex(pre, y)
  {
    var xs := pre + [x];
    var k := FirstIndex(pre, y);
    var m := FirstIndex(xs, y);
    assert xs[k] == y;
    assert forall j :: 0 <= j < |pre| ==> xs[j] == pre[j];
  }

  /** The dedup lists each element at its first occurrence, in order. */
  lemma {:induction false} DedupOrder<T(!new)>(xs: seq<T>)
    ensures FirstOccurrenceOrder(DedupPreserve(xs), xs)
  {
    if |xs| > 0 {
      var pre := xs[..|xs| - 1];
      var x := xs[|xs| - 1];
      var p := DedupPreserve(pre);
      DedupOrder(pre);
      assert xs == pre + [x];
      forall y | y in pre ensures FirstIndex(xs, y) == FirstIndex(pre, y) {
        FirstIndexPrefix(pre, x, y);
      }
      if x !in p {
        var r := p + [x];
        assert FirstIndex(xs, x) == |xs| - 1;
        forall i, j | 0 <= i < j < |r| && r[i] in xs && r[j] in xs
          ensures FirstIndex(xs, r[i]) < FirstIndex(xs, r[j])
        {
          assert r[i] == p[i] && r[i] in pre;
          if j < |p| {
            assert r[j] == p[j] && r[j] in pre;
          }
        }
      } else {
        forall i, j | 0 <= i < j < |p| && p[i] in xs && p[j] in xs
          ensures FirstIndex(xs, p[i]) < FirstIndex(xs, p[j])
        {
          assert p[i] in pre && p[j] in pre;
        }
      }
    }
  }

  // ---------------------------------------------------------------------------
  // _log_kind
  // ---------------------------------------------------------------------------

  datatype Kind = Audit | Security | Log | Other

  const AUDIT_KEYS: seq<string> := ["audit", "tamper", "改ざん", "耐改ざん"]
  const SECURITY_LOG_KEYS: seq<string> := ["security log", "セキュリティログ", "ブルート", "brute"]
  const LOG_KEYS: seq<string> := ["log", "ログ"]

  /** The audit/security/log/other classifier over its three keyword lists (the copy in
      `self_check.py` uses a shorter security list): audit takes priority over security,
      which takes priority over plain log. */
  function LogKindBy(auditKeys: seq<string>, securityKeys: seq<string>, logKeys: seq<string>, acText: string): (k: Kind)
    ensures var t := Lower(acText);
      && (k == Audit <==> ContainsAny(t, auditKeys))
      && (k == Security <==> !ContainsAny(t, auditKeys) && ContainsAny(t, securityKeys))
      && (k == Log <==> !ContainsAny(t, auditKeys) && !ContainsAny(t, securityKeys) && ContainsAny(t, logKeys))
  {
    var rules := [Rule(auditKeys, Audit), Rule(securityKeys, Security), Rule(logKeys, Log)];
    var t := Lower(acText);
    var k := Classify(rules, t, Other);
    assert Fires(rules[0], t) <==> ContainsAny(t, auditKeys);
    assert Fires(rules[1], t) <==> ContainsAny(t, securityKeys);
    assert Fires(rules[2], t) <==> ContainsAny(t, logKeys);
    k
  }

  /** `_log_kind`. */
  function LogKind(acText: string): Kind {
    LogKindBy(AUDIT_KEYS, SECURITY_LOG_KEYS, LOG_KEYS, acText)
  }

  /** `_log_kind` with the planner's keyword lists. */
  lemma LogKindSpec(acText: string)
    ensures var t := Lower(acText); var k := LogKind(acText);
      && (k == Audit <==> ContainsAny(t, AUDIT_KEYS))
      && (k == Security <==> !ContainsAny(t, AUDIT_KEYS) && ContainsAny(t, SECURITY_LOG_KEYS))
      && (k == Log <==> !ContainsAny(t, AUDIT_KEYS) && !ContainsAny(t, SECURITY_LOG_KEYS) && ContainsAny(t, LOG_KEYS))
  {
  }

  /** Keyword lists of non-empty words find nothing in the empty text. */
  lemma NoKeysInEmpty(keys: seq<string>)
    requires forall i :: 0 <= i < |keys| ==> |keys[i]| > 0
    ensures !ContainsAny("", keys)
  {
  }

  /** An empty AC text is of no log kind. */
  lemma LogKindEmpty()
    ensures LogKind("") == Other
  {
    assert Lower("") == "";
    NoKeysInEmpty(AUDIT_KEYS);
    NoKeysInEmpty(SECURITY_LOG_KEYS);
    NoKeysInEmpty(LOG_KEYS);
  }

  // ---------------------------------------------------------------------------
  // normalize_grouping_obj
  // ---------------------------------------------------------------------------

  /** One group of a grouping proposal. */
  datatype Group = Group(groupId: string, acIds: seq<string>, labelText: string, rationale: string, tags: seq<string>)

  /** A grouping: `{"groups": [...], "meta": {...}}`. */
  datatype Grouping = Grouping(groups: seq<Group>, meta: Json)

  /** Non-empty strings that `strip` leaves alone. */
  predicate StrippedNonEmpty(r: seq<string>) {
    forall i :: 0 <= i < |r| ==> |r[i]| > 0 && Stripped(r[i])
  }

  /** A list of stripped, non-empty, duplicate-free strings. */
  predicate CleanList(xs: seq<string>) {
    Distinct(xs) && StrippedNonEmpty(xs)
  }

  /** What every normalised group satisfies. */
  predicate WellFormedGroup(g: Group) {
    && |g.groupId| > 0 && Stripped(g.groupId)
    && CleanList(g.acIds)
    && Stripped(g.labelText) && Stripped(g.rationale)
    && CleanList(g.tags)
  }

  lemma StrippedNonEmptyAppend(a: seq<string>, b: seq<string>)
    requires StrippedNonEmpty(a) && StrippedNonEmpty(b)
    ensures StrippedNonEmpty(a + b)
  {
    forall i | |a| <= i < |a + b| ensures (a + b)[i] == b[i - |a|] { }
  }

  /** `[str(x).strip() for x in xs if isinstance(x, str) and str(x).strip()]`. */
  function StrippedStrings(items: seq<Json>): (r: seq<string>)
    ensures StrippedNonEmpty(r)
  {
    if |items| == 0 then []
    else
      var head := if items[0].JStr? && !Blank(items[0].s) then
        StripSpec(items[0].s);
        [Strip(items[0].s)]
      else [];
      StrippedNonEmptyAppend(head, StrippedStrings(items[1..]));
      head + StrippedStrings(items[1..])
  }

  /** The `ac_ids` / `tags` cleaning: a non-list becomes empty, then strip, drop blanks, dedup. */
  function CleanIds(raw: Json): (r: seq<string>)
    ensures CleanList(r)
  {
    var xs := StrippedStrings(if raw.JArr? then raw.items else []);
    var r := DedupPreserve(xs);
    assert forall i :: 0 <= i < |r| ==> r[i] in xs;
    r
  }

  /** A string field: non-strings become `""`, strings are stripped. */
  function CleanText(raw: Json): (r: string)
    ensures Stripped(r)
  {
    StripSpec(if raw.JStr? then raw.s else "");
    Strip(if raw.JStr? then raw.s else "")
  }

  /** The id invented for a group without one: `f"G{idx:02d}"`. */
  function DefaultGroupId(idx: nat): (r: string)
    ensures |r| >= 3 && r[0] == 'G'
  {
    "G" + PadNat(idx, 2)
  }

  lemma DefaultGroupIdStripped(idx: nat)
    ensures Stripped(DefaultGroupId(idx))
  {
    var d := PadNat(idx, 2);
    assert !IsSpace(d[|d| - 1]);
  }

  /** One dictionary entry of the `groups` list, at 1-based position `idx`. */
  function NormalizeGroupAt(g: Obj, idx: nat): (r: Group)
    ensures WellFormedGroup(r)
    ensures var raw := Get(g, "group_id", JNull);
      r.groupId == if raw.JStr? && !Blank(raw.s) then Strip(raw.s) else DefaultGroupId(idx)
    ensures r.acIds == CleanIds(Get(g, "ac_ids", JArr([])))
  {
    var raw := Get(g, "group_id", JNull);
    StripSpec(if raw.JStr? then raw.s else "");
    DefaultGroupIdStripped(idx);
    var gid := if raw.JStr? && !Blank(raw.s) then Strip(raw.s) else DefaultGroupId(idx);
    Group(
      gid,
      CleanIds(Get(g, "ac_ids", JArr([]))),
      CleanText(Get(g, "label", JNull)),
      CleanText(Get(g, "rationale", JNull)),
      CleanIds(Get(g, "tags", JArr([]))))
  }

  /** Number of dictionary entries in a list. */
  function CountObjects(items: seq<Json>): (n: nat)
    ensures n <= |items|
  {
    if |items| == 0 then 0 else (if items[0].JObj? then 1 else 0) + CountObjects(items[1..])
  }

  /** `for idx, g in enumerate(items, start=start): if isinstance(g, dict): out.append(f(g, idx))`. */
  function MapObjects<G>(items: seq<Json>, start: nat, f: (Obj, nat) -> G): (r: seq<G>)
    ensures |r| == CountObjects(items)
  {
    if |items| == 0 then []
    else (if items[0].JObj? then [f(items[0].fields, start)] else []) + MapObjects(items[1..], start + 1, f)
  }

  /** A property every output of `f` has holds of every element of the loop's result. */
  lemma {:induction false} MapObjectsAll<G>(items: seq<Json>, start: nat, f: (Obj, nat) -> G, P: G -> bool)
    requires forall o, n :: P(f(o, n))
    ensures forall i :: 0 <= i < |MapObjects(items, start, f)| ==> P(MapObjects(items, start, f)[i])
  {
    if |items| > 0 {
      MapObjectsAll(items[1..], start + 1, f, P);
      var head := if items[0].JObj? then [f(items[0].fields, start)] else [];
      var rest := MapObjects(items[1..], start + 1, f);
      assert MapObjects(items, start, f) == head + rest;
      assert forall i :: 0 <= i < |rest| ==> (head + rest)[|head| + i] == rest[i];
    }
  }

  lemma {:induction false} CountObjectsSplit(items: seq<Json>, p: nat)
    requires p < |items|
    ensures CountObjects(items) == CountObjects(items[..p]) + (if items[p].JObj? then 1 else 0) + CountObjects(items[p + 1..])
  {
    if p > 0 {
      CountObjectsSplit(items[1..], p - 1);
      assert items[1..][..p - 1] == items[..p][1..];
      assert items[1..][p..] == items[p + 1..];
      assert items[..p][0] == items[0];
    }
  }

  /** Each dictionary at raw position `p` lands after the dictionaries before it and is
      given index `start + p`, however many non-dictionaries were dropped before it. */
  lemma {:induction false} MapObjectsPositional<G>(items: seq<Json>, start: nat, f: (Obj, nat) -> G, p: nat)
    requires p < |items| && items[p].JObj?
    ensures CountObjects(items[..p]) < |MapObjects(items, start, f)|
    ensures MapObjects(items, start, f)[CountObjects(items[..p])] == f(items[p].fields, start + p)
  {
    CountObjectsSplit(items, p);
    var rest := items[1..];
    var head := if items[0].JObj? then [f(items[0].fields, start)] else [];
    assert MapObjects(items, start, f) == head + MapObjects(rest, start + 1, f);
    if p == 0 {
      assert items[..p] == [];
    } else {
      MapObjectsPositional(rest, start + 1, f, p - 1);
      assert items[..p] == [items[0]] + rest[..p - 1];
      assert CountObjects(items[..p]) == |head| + CountObjects(rest[..p - 1]);
    }
  }

  /** When every item is a dictionary that `f` maps back to `gs[i]` at any index, the
      loop reproduces `gs`. */
  lemma {:induction false} MapObjectsInverse<G>(items: seq<Json>, start: nat, f: (Obj, nat) -> G, gs: seq<G>)
    requires |items| == |gs|
    requires forall i :: 0 <= i < |items| ==> items[i].JObj?
    requires forall i, n :: 0 <= i < |items| ==> f(items[i].fields, n) == gs[i]
    ensures MapObjects(items, start, f) == gs
  {
    if |items| > 0 {
      assert f(items[0].fields, start) == gs[0];
      MapObjectsInverse(items[1..], start + 1, f, gs[1..]);
      assert gs == [gs[0]] + gs[1..];
    }
  }

  /** The loop over the `groups` list: non-dictionaries are dropped, and a dictionary at
      1-based raw position `idx` is normalised with that index. */
  function NormalizeGroups(items: seq<Json>, start: nat): (r: seq<Group>)
    ensures |r| == CountObjects(items)
    ensures forall i :: 0 <= i < |r| ==> WellFormedGroup(r[i])
  {
    MapObjectsAll(items, start, NormalizeGroupAt, WellFormedGroup);
    MapObjects(items, start, NormalizeGroupAt)
  }

  /** The raw `groups` list of a proposal, `[]` when absent or not a list. */
  function RawGroups(obj: Json): seq<Json> {
    if obj.JObj? && Get(obj.fields, "groups", JArr([])).JArr? then Get(obj.fields, "groups", JArr([])).items else []
  }

  /** `normalize_grouping_obj`. */
  function NormalizeGroupingObj(obj: Json): (r: Grouping)
    ensures !obj.JObj? ==> r.groups == []
    ensures |r.groups| == CountObjects(RawGroups(obj))
    ensures forall i :: 0 <= i < |r.groups| ==> WellFormedGroup(r.groups[i])
    ensures r.meta.JObj?
  {
    if !obj.JObj? then Grouping([], JObj(map[]))
    else
      var meta := Get(obj.fields, "meta", JNull);
      Grouping(NormalizeGroups(RawGroups(obj), 1), if meta.JObj? then meta else JObj(map[]))
  }

  /** The group normalised from raw position `p` of the `groups` list carries the id
      `G{p+1:02d}` when its own id is missing or blank. */
  lemma NormalizeGroupsPositional(obj: Json, p: nat)
    requires p < |RawGroups(obj)| && RawGroups(obj)[p].JObj?
    ensures var items := RawGroups(obj);
      var r := NormalizeGroupingObj(obj);
      var raw := Get(items[p].fields, "group_id", JNull);
      && CountObjects(items[..p]) < |r.groups|
      && r.groups[CountObjects(items[..p])].groupId
         == if raw.JStr? && !Blank(raw.s) then Strip(raw.s) else DefaultGroupId(p + 1)
  {
    var items := RawGroups(obj);
    assert NormalizeGroupingObj(obj).groups == MapObjects(items, 1, NormalizeGroupAt);
    MapObjectsPositional(items, 1, NormalizeGroupAt, p);
    var g := NormalizeGroupAt(items[p].fields, 1 + p);
  }

  // ---------------------------------------------------------------------------
  // Views of a list of groups
  // ---------------------------------------------------------------------------

  function GroupIdsOf(gs: seq<Group>): (r: seq<string>)
    ensures |r| == |gs| && forall i :: 0 <= i < |gs| ==> r[i] == gs[i].groupId
  {
    seq(|gs|, i requires 0 <= i < |gs| => gs[i].groupId)
  }

  /** The ids of every group, concatenated in group order. */
  function AllAcIds(gs: seq<Group>): seq<string> {
    if |gs| == 0 then [] else gs[0].acIds + AllAcIds(gs[1..])
  }

  lemma AllAcIdsSingle(g: Group)
    ensures AllAcIds([g]) == g.acIds
  {
    assert [g][1..] == [];
  }

  lemma AllAcIdsLast(gs: seq<Group>)
    requires |gs| > 0
    ensures AllAcIds(gs) == AllAcIds(gs[..|gs| - 1]) + gs[|gs| - 1].acIds
  {
    var k := |gs| - 1;
    assert gs == gs[..k] + [gs[k]];
    AllAcIdsAppend(gs[..k], [gs[k]]);
    AllAcIdsSingle(gs[k]);
  }

  lemma {:induction false} AllAcIdsAppend(a: seq<Group>, b: seq<Group>)
    ensures AllAcIds(a + b) == AllAcIds(a) + AllAcIds(b)
  {
    if |a| > 0 {
      assert (a + b)[1..] == a[1..] + b;
      AllAcIdsAppend(a[1..], b);
    } else {
      assert a + b == b;
    }
  }

  // ---------------------------------------------------------------------------
  // Groups as JSON again (what the validator and the caller see)
  // ---------------------------------------------------------------------------

  function GroupToJson(g: Group): Json {
    JObj(map[
      "group_id" := JStr(g.groupId),
      "ac_ids" := StrArr(g.acIds),
      "label" := JStr(g.labelText),
      "rationale" := JStr(g.rationale),
      "tags" := StrArr(g.tags)])
  }

  function GroupsToJson(gs: seq<Group>): (r: seq<Json>)
    ensures |r| == |gs|
    ensures forall i :: 0 <= i < |gs| ==> r[i] == GroupToJson(gs[i])
  {
    seq(|gs|, i requires 0 <= i < |gs| => GroupToJson(gs[i]))
  }

  /** `{"groups": [...], "meta": meta}`. */
  function GroupingJson(gs: seq<Group>, meta: Json): Json {
    JObj(map["groups" := JArr(GroupsToJson(gs)), "meta" := meta])
  }

  lemma {:induction false} StrippedStringsOfClean(xs: seq<string>)
    requires forall i :: 0 <= i < |xs| ==> |xs[i]| > 0 && Stripped(xs[i])
    ensures StrippedStrings(StrArr(xs).items) == xs
  {
    if |xs| > 0 {
      assert StrArr(xs).items[1..] == StrArr(xs[1..]).items;
      StrippedStringsOfClean(xs[1..]);
      StripOfStripped(xs[0]);
      assert !IsSpace(xs[0][0]);
    }
  }

  lemma CleanIdsOfClean(xs: seq<string>)
    requires CleanList(xs)
    ensures CleanIds(StrArr(xs)) == xs
  {
    StrippedStringsOfClean(xs);
    DedupOfDistinct(xs);
  }

  /** Normalising a well-formed group's JSON gives the group back. */
  lemma NormalizeGroupRoundTrip(g: Group, idx: nat)
    requires WellFormedGroup(g)
    ensures NormalizeGroupAt(GroupToJson(g).fields, idx) == g
  {
    var m := GroupToJson(g).fields;
    assert Get(m, "group_id", JNull) == JStr(g.groupId);
    assert Get(m, "ac_ids", JArr([])) == StrArr(g.acIds);
    assert Get(m, "label", JNull) == JStr(g.labelText);
    assert Get(m, "rationale", JNull) == JStr(g.rationale);
    assert Get(m, "tags", JArr([])) == StrArr(g.tags);
    var r := NormalizeGroupAt(m, idx);
    assert r.groupId == g.groupId by {
      StripOfStripped(g.groupId);
      assert !IsSpace(g.groupId[0]);
    }
    assert r.acIds == g.acIds by { CleanIdsOfClean(g.acIds); }
    assert r.labelText == g.labelText by { StripOfStripped(g.labelText); }
    assert r.rationale == g.rationale by { StripOfStripped(g.rationale); }
    assert r.tags == g.tags by { CleanIdsOfClean(g.tags); }
  }

  /** Normalising the JSON of well-formed groups and a dictionary `meta` gives them back. */
  lemma NormalizeGroupingJson(gs: seq<Group>, meta: Json)
    requires forall i :: 0 <= i < |gs| ==> WellFormedGroup(gs[i])
    requires meta.JObj?
    ensures NormalizeGroupingObj(GroupingJson(gs, meta)) == Grouping(gs, meta)
  {
    var j := GroupingJson(gs, meta);
    assert Get(j.fields, "groups", JArr([])) == JArr(GroupsToJson(gs));
    assert Get(j.fields, "meta", JNull) == meta;
    var items := GroupsToJson(gs);
    forall i, k | 0 <= i < |items| ensures NormalizeGroupAt(items[i].fields, k) == gs[i] {
      NormalizeGroupRoundTrip(gs[i], k);
    }
    MapObjectsInverse(items, 1, NormalizeGroupAt, gs);
  }

  /** `normalize_grouping_obj` is idempotent: normalising its own output changes nothing. */
  lemma NormalizeIdempotent(obj: Json)
    ensures var n := NormalizeGroupingObj(obj);
      NormalizeGroupingObj(GroupingJson(n.groups, n.meta)) == n
  {
    var n := NormalizeGroupingObj(obj);
    NormalizeGroupingJson(n.groups, n.meta);
  }
}
