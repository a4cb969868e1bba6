/**
 * `grouped_taskgen/fallback_ac_tasks.py`: when task generation is not available, every
 * AC becomes one minimal task. The ACs are ordered by the number their id ends with, the
 * title is the whitespace-normalised AC text cut to 80 characters, and the subcategory
 * comes from an ordered keyword chain.
 */
module FallbackTasks {
  import opened Strings
  import opened Seqs
  import opened PyJson
  import opened AcMaps
  import opened Keywords
  import opened GroupTaskgen

  // ---------------------------------------------------------------------------
  // _normalize_space and _short_title
  // ---------------------------------------------------------------------------

  /** `_SPACE_RE.sub(" ", t)`: every maximal run of whitespace becomes one space. */
  function Collapse(t: string): (r: string)
    ensures |r| <= |t|
    ensures |r| == 0 <==> |t| == 0
    decreases |t|
  {
    if |t| == 0 then ""
    else if IsSpace(t[0]) then " " + Collapse(LStrip(t[1..]))
    else [t[0]] + Collapse(t[1..])
  }

  /** `_normalize_space(s)`: strip, then collapse the inner whitespace. */
  function NormalizeSpace(s: string): string {
    Collapse(Strip(s))
  }

  /** The only whitespace is a plain space, and no two whitespace characters are adjacent. */
  predicate SingleSpaced(r: string) {
    && (forall i :: 0 <= i < |r| && IsSpace(r[i]) ==> r[i] == ' ')
    && (forall i :: 0 <= i < |r| - 1 && IsSpace(r[i]) ==> !IsSpace(r[i + 1]))
  }

  /** Collapsing a text that does not end in whitespace leaves single spaces only, keeps the
      first character when it is not whitespace, and does not end in whitespace. */
  lemma {:induction false} CollapseShape(t: string)
    requires |t| == 0 || !IsSpace(t[|t| - 1])
    ensures var r := Collapse(t);
      && SingleSpaced(r)
      && (|r| > 0 ==> !IsSpace(r[|r| - 1]))
      && (|t| > 0 && !IsSpace(t[0]) ==> r[0] == t[0])
    decreases |t|
  {
    if |t| > 0 {
      if IsSpace(t[0]) {
        var u := LStrip(t[1..]);
        LStripSpec(t[1..]);
        assert u[|u| - 1] == t[|t| - 1];
        CollapseShape(u);
      } else {
        CollapseShape(t[1..]);
      }
    }
  }

  /** A single-spaced text is left alone by collapsing. */
  lemma {:induction false} CollapseFixed(r: string)
    requires SingleSpaced(r)
    ensures Collapse(r) == r
    decreases |r|
  {
    if |r| > 0 {
      assert SingleSpaced(r[1..]);
      CollapseFixed(r[1..]);
      if IsSpace(r[0]) {
        LStripOfNonSpaceStart(r[1..]);
        assert r == [r[0]] + r[1..];
      }
    }
  }

  /** The normalised text is stripped and single-spaced, and it is empty exactly when the
      text is blank. */
  lemma NormalizeSpaceSpec(s: string)
    ensures var r := NormalizeSpace(s);
      && SingleSpaced(r) && Stripped(r)
      && (|r| == 0 <==> Blank(s))
  {
    StripSpec(s);
    CollapseShape(Strip(s));
  }

  /** Normalising twice changes nothing. */
  lemma NormalizeSpaceIdempotent(s: string)
    ensures NormalizeSpace(NormalizeSpace(s)) == NormalizeSpace(s)
  {
    var r := NormalizeSpace(s);
    NormalizeSpaceSpec(s);
    StripOfStripped(r);
    CollapseFixed(r);
  }

  /** The default `max_len` of `_short_title`, the only one the module uses. */
  const TITLE_MAX: nat := 80
  const EMPTY_TITLE := "(empty acceptance criteria)"
  const ELLIPSIS: char := '…'

  /** `_short_title(ac_text)`. */
  function ShortTitle(acText: string): string {
    var t := NormalizeSpace(acText);
    if |t| == 0 then EMPTY_TITLE
    else if |t| <= TITLE_MAX then t
    else t[..TITLE_MAX - 1] + [ELLIPSIS]
  }

  /** A blank text gets the placeholder title; any other text keeps its normalised form when
      it fits in 80 characters, and otherwise its first 79 followed by an ellipsis. */
  lemma ShortTitleSpec(acText: string)
    ensures var r := ShortTitle(acText);
      var t := NormalizeSpace(acText);
      && 0 < |r| <= TITLE_MAX
      && (Blank(acText) ==> r == EMPTY_TITLE)
      && (!Blank(acText) && |t| <= TITLE_MAX ==> r == t)
      && (!Blank(acText) && |t| > TITLE_MAX ==> |r| == TITLE_MAX && StartsWith(t, r[..TITLE_MAX - 1]) && r[TITLE_MAX - 1] == ELLIPSIS)
  {
    NormalizeSpaceSpec(acText);
  }

  // ---------------------------------------------------------------------------
  // _guess_subcategory
  // ---------------------------------------------------------------------------

  /** The eight labels the chain can answer. */
  datatype Subcategory =
    | LoggingAudit | AuthPermission | SecurityValidation | PerformanceCache | Api | UiUx | ExportReport | General
  {
    function Name(): string {
      match this
      case LoggingAudit => "Logging/Audit"
      case AuthPermission => "Auth/Permission"
      case SecurityValidation => "Security/Validation"
      case PerformanceCache => "Performance/Cache"
      case Api => "API"
      case UiUx => "UI/UX"
      case ExportReport => "Export/Report"
      case General => "General"
    }
  }

  /** The keyword tests of `_guess_subcategory`, in source order. */
  const SUBCATEGORY_RULES: seq<Rule<Subcategory>> := [
    Rule(["tamper", "immutable", "audit log", "audit", "監査", "耐改ざん", "改ざん"], LoggingAudit),
    Rule(["security log", "セキュリティログ"], LoggingAudit),
    Rule(["log", "logging", "ログ"], LoggingAudit),
    Rule(["authenticated", "authentication", "auth", "login", "jwt", "session"], AuthPermission),
    Rule(["permission", "role", "rbac", "authorize", "authorization"], AuthPermission),
    Rule(["sql injection", "sqli", "xss", "sanitize", "sanitise", "csrf", "validation"], SecurityValidation),
    Rule(["rate limit", "ratelimit", "throttle", "brute"], SecurityValidation),
    Rule(["cache", "caching", "latency", "performance", "throughput", "p95"], PerformanceCache),
    Rule([" ms", "ms.", "milliseconds", " second", "seconds", "1 second"], PerformanceCache),
    Rule(["api", "rest", "endpoint", "http", "response"], Api),
    Rule(["responsive", "mobile", "layout", "widget", "screen", "ui", "ux"], UiUx),
    Rule(["export", "csv", "pdf", "report"], ExportReport)]

  /** No test answers `General`, and the last three labels have one test each. */
  lemma SubcategoryRules()
    ensures forall j :: 0 <= j < |SUBCATEGORY_RULES| ==> SUBCATEGORY_RULES[j].outcome != General
    ensures |SUBCATEGORY_RULES| == 12
    ensures forall j :: 0 <= j < 12 && SUBCATEGORY_RULES[j].outcome == Api ==> j == 9
    ensures forall j :: 0 <= j < 12 && SUBCATEGORY_RULES[j].outcome == UiUx ==> j == 10
    ensures forall j :: 0 <= j < 12 && SUBCATEGORY_RULES[j].outcome == ExportReport ==> j == 11
    ensures forall j :: 0 <= j < 3 ==> SUBCATEGORY_RULES[j].outcome == LoggingAudit
    ensures SUBCATEGORY_RULES[2].keys[0] == "log"
  {
  }

  /** `_guess_subcategory(ac_text)`: the label of the first test whose keyword occurs in the
      lower-cased text, `General` when none does. */
  function GuessSubcategory(acText: string): (c: Subcategory)
    ensures c == General <==> forall i :: 0 <= i < |SUBCATEGORY_RULES| ==> !Fires(SUBCATEGORY_RULES[i], Lower(acText))
  {
    SubcategoryRules();
    Classify(SUBCATEGORY_RULES, Lower(acText), General)
  }

  /** The first test that fires decides. */
  lemma GuessFirstTest(acText: string, i: int)
    requires FirstFiring(SUBCATEGORY_RULES, Lower(acText), i)
    ensures GuessSubcategory(acText) == SUBCATEGORY_RULES[i].outcome
  {
    ClassifyFirstRule(SUBCATEGORY_RULES, Lower(acText), General, i);
  }

  /** `API`, `UI/UX` and `Export/Report` are answered exactly when their single test is the
      first to fire. */
  lemma GuessSingleTests(acText: string)
    ensures GuessSubcategory(acText) == Api <==> FirstFiring(SUBCATEGORY_RULES, Lower(acText), 9)
    ensures GuessSubcategory(acText) == UiUx <==> FirstFiring(SUBCATEGORY_RULES, Lower(acText), 10)
    ensures GuessSubcategory(acText) == ExportReport <==> FirstFiring(SUBCATEGORY_RULES, Lower(acText), 11)
  {
    SubcategoryRules();
    ClassifyUniqueOutcome(SUBCATEGORY_RULES, Lower(acText), General, 9);
    ClassifyUniqueOutcome(SUBCATEGORY_RULES, Lower(acText), General, 10);
    ClassifyUniqueOutcome(SUBCATEGORY_RULES, Lower(acText), General, 11);
  }

  /** The `log` test comes before the authentication test, so an AC that mentions `login`
      is filed under `Logging/Audit`: the `login` keyword of the authentication test never
      decides. */
  lemma LoginIsLogging(acText: string)
    requires Contains(Lower(acText), "login")
    ensures GuessSubcategory(acText) == LoggingAudit
  {
    var t := Lower(acText);
    assert "login" == "log" + "in";
    ContainsShorter(t, "log", "in");
    SubcategoryRules();
    assert Fires(SUBCATEGORY_RULES[2], t);
    var j := ClassifyNoLaterThan(SUBCATEGORY_RULES, t, General, 2);
  }

  // ---------------------------------------------------------------------------
  // _sort_ac_items
  // ---------------------------------------------------------------------------

  /** The sort number of an id without a trailing number. */
  const NO_NUMBER: nat := 1_000_000_000

  /** The number of ASCII digits `s` ends with. */
  function TrailingDigits(s: string): (k: nat)
    ensures k <= |s|
    ensures forall i :: |s| - k <= i < |s| ==> IsDigit(s[i])
    ensures k < |s| ==> !IsDigit(s[|s| - k - 1])
    decreases |s|
  {
    if |s| > 0 && IsDigit(s[|s| - 1]) then 1 + TrailingDigits(s[..|s| - 1]) else 0
  }

  /** The first part of `key_fn`: the number `(\d+)$` finds at the end of the id (`$` also
      matches before a final newline), or `10**9`. */
  function SortNumber(id: string): nat {
    var body := if |id| > 0 && id[|id| - 1] == '\n' then id[..|id| - 1] else id;
    var k := TrailingDigits(body);
    if k == 0 then NO_NUMBER else DigitsValue(body[|body| - k..])
  }

  /** An id ending in zero-padded digits sorts by the number they spell. */
  lemma SortNumberOfPadded(prefix: string, n: nat, width: nat)
    requires |prefix| == 0 || !IsDigit(prefix[|prefix| - 1])
    requires width > 0
    ensures SortNumber(prefix + PadNat(n, width)) == n
  {
    var id := prefix + PadNat(n, width);
    var p := PadNat(n, width);
    assert id[|id| - 1] == p[|p| - 1];
    TrailingDigitsOfDigits(prefix, p);
    assert id[|id| - |p|..] == p;
    PadNatRoundTrip(n, width);
  }

  /** `$` also matches before a final newline: an id followed by a newline sorts by the same
      number as the id alone. */
  lemma SortNumberFinalNewline(id: string)
    requires |id| == 0 || id[|id| - 1] != '\n'
    ensures SortNumber(id + "\n") == SortNumber(id)
  {
    var t := id + "\n";
    assert t[|t| - 1] == '\n';
    assert t[..|t| - 1] == id;
  }

  lemma {:induction false} TrailingDigitsOfDigits(prefix: string, d: string)
    requires |prefix| == 0 || !IsDigit(prefix[|prefix| - 1])
    requires AllDigits(d)
    ensures TrailingDigits(prefix + d) == |d|
    decreases |d|
  {
    if |d| == 0 {
      assert prefix + d == prefix;
    } else {
      assert (prefix + d)[..|prefix + d| - 1] == prefix + d[..|d| - 1];
      TrailingDigitsOfDigits(prefix, d[..|d| - 1]);
    }
  }

  /** An entry with its sort key, computed once per entry as `sorted(key=...)` does. */
  datatype Keyed = Keyed(num: nat, e: Entry)

  /** `key_fn(a) <= key_fn(b)`: by number, then by id. */
  predicate KeyLe(a: Keyed, b: Keyed) {
    a.num < b.num || (a.num == b.num && LessEq(a.e.0, b.e.0))
  }

  lemma KeyLeTotal(a: Keyed, b: Keyed)
    ensures KeyLe(a, b) || KeyLe(b, a)
  {
    LessEqTotal(a.e.0, b.e.0);
  }

  lemma KeyLeTransitive(a: Keyed, b: Keyed, c: Keyed)
    requires KeyLe(a, b) && KeyLe(b, c)
    ensures KeyLe(a, c)
  {
    if a.num == b.num && b.num == c.num {
      LessEqTransitive(a.e.0, b.e.0, c.e.0);
    }
  }

  predicate SortedByKey(s: seq<Keyed>) {
    forall i, j :: 0 <= i < j < |s| ==> KeyLe(s[i], s[j])
  }

  function InsertKeyed(x: Keyed, s: seq<Keyed>): (r: seq<Keyed>)
    ensures multiset(r) == multiset(s) + multiset{x}
    ensures |r| == |s| + 1
  {
    if |s| == 0 then [x]
    else if KeyLe(x, s[0]) then [x] + s
    else
      assert s == [s[0]] + s[1..];
      [s[0]] + InsertKeyed(x, s[1..])
  }

  lemma {:induction false} InsertKeyedSorted(x: Keyed, s: seq<Keyed>)
    requires SortedByKey(s)
    ensures SortedByKey(InsertKeyed(x, s))
  {
    if |s| == 0 {
    } else if KeyLe(x, s[0]) {
      forall j | 0 < j < |s| ensures KeyLe(x, s[j]) {
        KeyLeTransitive(x, s[0], s[j]);
      }
    } else {
      KeyLeTotal(x, s[0]);
      var rest := InsertKeyed(x, s[1..]);
      InsertKeyedSorted(x, s[1..]);
      forall y | y in rest ensures KeyLe(s[0], y) {
        assert y in multiset(rest);
        assert y == x || y in s[1..];
      }
      var r := [s[0]] + rest;
      forall i, j | 0 <= i < j < |r| ensures KeyLe(r[i], r[j]) {
        if i > 0 {
          assert r[i] == rest[i - 1] && r[j] == rest[j - 1];
        } else {
          assert r[j] in rest;
        }
      }
    }
  }

  /** Insertion sort on the keys. */
  function SortKeyed(ks: seq<Keyed>): (r: seq<Keyed>)
    ensures SortedByKey(r)
    ensures multiset(r) == multiset(ks)
    ensures |r| == |ks|
  {
    if |ks| == 0 then []
    else
      assert ks == [ks[0]] + ks[1..];
      InsertKeyedSorted(ks[0], SortKeyed(ks[1..]));
      InsertKeyed(ks[0], SortKeyed(ks[1..]))
  }

  /** No two keyed entries share an id. */
  predicate DistinctIds(ks: seq<Keyed>) {
    forall i, j :: 0 <= i < j < |ks| ==> ks[i].e.0 != ks[j].e.0
  }

  lemma {:induction false} InsertKeyedDistinct(x: Keyed, s: seq<Keyed>)
    requires DistinctIds(s)
    requires forall k :: 0 <= k < |s| ==> s[k].e.0 != x.e.0
    ensures DistinctIds(InsertKeyed(x, s))
  {
    if |s| > 0 && !KeyLe(x, s[0]) {
      InsertKeyedDistinct(x, s[1..]);
      var rest := InsertKeyed(x, s[1..]);
      forall k | 0 <= k < |rest| ensures rest[k].e.0 != s[0].e.0 {
        assert rest[k] in multiset(rest);
        assert rest[k] == x || rest[k] in s[1..];
      }
    }
  }

  lemma {:induction false} SortKeyedDistinct(ks: seq<Keyed>)
    requires DistinctIds(ks)
    ensures DistinctIds(SortKeyed(ks))
    decreases |ks|
  {
    if |ks| > 0 {
      var rest := SortKeyed(ks[1..]);
      SortKeyedDistinct(ks[1..]);
      forall k | 0 <= k < |rest| ensures rest[k].e.0 != ks[0].e.0 {
        assert rest[k] in multiset(ks[1..]);
      }
      InsertKeyedDistinct(ks[0], rest);
    }
  }

  /** Each entry paired with its key. */
  function Decorate(m: seq<Entry>): (ks: seq<Keyed>)
    ensures |ks| == |m|
  {
    seq(|m|, i requires 0 <= i < |m| => Keyed(SortNumber(m[i].0), m[i]))
  }

  /** Every key is the key of its entry. */
  predicate KeysOfEntries(ks: seq<Keyed>) {
    forall k :: k in ks ==> k.num == SortNumber(k.e.0)
  }

  /** The entries of keyed entries, in order. */
  function EntriesOf(ks: seq<Keyed>): (r: seq<Entry>)
    ensures |r| == |ks|
    ensures forall i :: 0 <= i < |ks| ==> r[i] == ks[i].e
  {
    seq(|ks|, i requires 0 <= i < |ks| => ks[i].e)
  }

  /** Reordering keyed entries reorders their entries. */
  lemma EntriesOfSameMultiset(a: seq<Keyed>, b: seq<Keyed>, e: Entry)
    requires multiset(a) == multiset(b)
    ensures e in EntriesOf(a) <==> e in EntriesOf(b)
  {
    if e in EntriesOf(a) {
      var i :| 0 <= i < |a| && a[i].e == e;
      assert a[i] in multiset(b);
      var j :| 0 <= j < |b| && b[j] == a[i];
      assert EntriesOf(b)[j] == e;
    }
    if e in EntriesOf(b) {
      var j :| 0 <= j < |b| && b[j].e == e;
      assert b[j] in multiset(a);
      var i :| 0 <= i < |a| && a[i] == b[j];
      assert EntriesOf(a)[i] == e;
    }
  }

  /** `sorted(ac_map.items(), key=key_fn)`. */
  function SortAcItems(m: seq<Entry>): (r: seq<Entry>)
    ensures |r| == |m|
  {
    EntriesOf(SortKeyed(Decorate(m)))
  }

  /** `key_fn(a) <= key_fn(b)` for two entries. */
  predicate EntryLe(a: Entry, b: Entry) {
    KeyLe(Keyed(SortNumber(a.0), a), Keyed(SortNumber(b.0), b))
  }

  /** The sorted entries are in key order. */
  lemma SortAcItemsSorted(m: seq<Entry>)
    ensures var r := SortAcItems(m);
      forall i, j :: 0 <= i < j < |r| ==> EntryLe(r[i], r[j])
  {
    var d := Decorate(m);
    var ks := SortKeyed(d);
    var r := SortAcItems(m);
    assert KeysOfEntries(ks) by {
      forall k | k in ks ensures k.num == SortNumber(k.e.0) {
        assert k in multiset(d);
        var i :| 0 <= i < |d| && d[i] == k;
      }
    }
    forall i | 0 <= i < |r| ensures ks[i] == Keyed(SortNumber(r[i].0), r[i]) {
      assert ks[i] in ks;
    }
  }

  /** An entry is among the sorted ones exactly when it is in the map. */
  lemma SortAcItemsMembers(m: seq<Entry>, e: Entry)
    ensures e in SortAcItems(m) <==> e in m
  {
    var d := Decorate(m);
    assert EntriesOf(d) == m;
    EntriesOfSameMultiset(SortKeyed(d), d, e);
  }

  /** Sorting an AC map keeps its ids distinct. */
  lemma SortAcItemsDistinct(m: seq<Entry>)
    requires DistinctKeys(m)
    ensures DistinctKeys(SortAcItems(m))
  {
    var d := Decorate(m);
    assert DistinctIds(d);
    SortKeyedDistinct(d);
  }

  /** The sorted map has the same ids. */
  lemma SortAcItemsKeys(m: seq<Entry>, a: string)
    ensures a in Keys(SortAcItems(m)) <==> HasKey(m, a)
  {
    var r := SortAcItems(m);
    if a in Keys(r) {
      var i :| 0 <= i < |r| && Keys(r)[i] == a;
      SortAcItemsMembers(m, r[i]);
      var j :| 0 <= j < |m| && m[j] == r[i];
      assert Keys(m)[j] == a;
    }
    if HasKey(m, a) {
      var j :| 0 <= j < |m| && Keys(m)[j] == a;
      SortAcItemsMembers(m, m[j]);
      var i :| 0 <= i < |r| && r[i] == m[j];
      assert Keys(r)[i] == a;
    }
  }

  // ---------------------------------------------------------------------------
  // ac_map_to_tasks
  // ---------------------------------------------------------------------------

  /** Task `i` names exactly the `i`-th id: one task per AC, in the order of `ids`. */
  predicate OneTaskPerId(ts: seq<Obj>, ids: seq<string>) {
    |ts| == |ids| && forall i :: 0 <= i < |ts| ==> TaskIds(JObj(ts[i])) == [JStr(ids[i])]
  }

  /** With one task per id, an id is covered exactly when it is listed. */
  lemma OneTaskPerIdCover(ts: seq<Obj>, ids: seq<string>, a: string)
    requires OneTaskPerId(ts, ids)
    ensures (exists i :: 0 <= i < |ts| && TaskCovers(JObj(ts[i]), a)) <==> a in ids
  {
    if a in ids {
      var i :| 0 <= i < |ids| && ids[i] == a;
      assert TaskCovers(JObj(ts[i]), a);
    }
  }

  /** With one task per id and distinct ids, no id is covered twice. */
  lemma OneTaskPerIdOnce(ts: seq<Obj>, ids: seq<string>, a: string, i: nat, j: nat)
    requires OneTaskPerId(ts, ids) && Distinct(ids)
    requires i < |ts| && j < |ts|
    requires TaskCovers(JObj(ts[i]), a) && TaskCovers(JObj(ts[j]), a)
    ensures i == j
  {
    assert ids[i] == a && ids[j] == a;
  }

  /** `f"T-{i:03d}"`. */
  function TaskNumber(n: nat): string {
    "T-" + PadNat(n, 3)
  }

  /** The task numbers are distinct, and each reads back as its number. */
  lemma TaskNumberSpec(n: nat, n': nat)
    ensures SortNumber(TaskNumber(n)) == n
    ensures TaskNumber(n) == TaskNumber(n') ==> n == n'
  {
    SortNumberOfPadded("T-", n, 3);
    SortNumberOfPadded("T-", n', 3);
  }

  /** The task for the `n`-th AC (from 1). */
  function FallbackTask(n: nat, id: string, title: string, sub: string): Obj {
    map[
      "task_id" := JStr(TaskNumber(n)),
      "ac_ids" := JArr([JStr(id)]),
      "category" := JStr("Task"),
      "status" := JStr("Todo"),
      "title" := JStr(title),
      "subcategory" := JStr(sub)]
  }

  /** The loop of `ac_map_to_tasks` over sorted entries, with the title and subcategory
      functions as parameters. */
  function TasksOf(items: seq<Entry>, titleOf: string -> string, subOf: string -> string): (ts: seq<Obj>)
    ensures |ts| == |items|
  {
    seq(|items|, i requires 0 <= i < |items| => FallbackTask(i + 1, items[i].0, titleOf(items[i].1), subOf(items[i].1)))
  }

  /** Task `i` is numbered `i + 1`, names the `i`-th AC only, is a `Todo` of category `Task`,
      and takes its title and subcategory from the AC text. */
  lemma TasksOfFields(items: seq<Entry>, titleOf: string -> string, subOf: string -> string, i: nat)
    requires i < |items|
    ensures var t := TasksOf(items, titleOf, subOf)[i];
      && TaskIds(JObj(t)) == [JStr(items[i].0)]
      && Get(t, "task_id", JNull) == JStr(TaskNumber(i + 1))
      && Get(t, "category", JNull) == JStr("Task") && Get(t, "status", JNull) == JStr("Todo")
      && Get(t, "title", JNull) == JStr(titleOf(items[i].1))
      && Get(t, "subcategory", JNull) == JStr(subOf(items[i].1))
  {
  }

  lemma TasksOfOnePerId(items: seq<Entry>, titleOf: string -> string, subOf: string -> string)
    ensures OneTaskPerId(TasksOf(items, titleOf, subOf), Keys(items))
  {
    forall i | 0 <= i < |items| ensures TaskIds(JObj(TasksOf(items, titleOf, subOf)[i])) == [JStr(Keys(items)[i])] {
      TasksOfFields(items, titleOf, subOf, i);
    }
  }

  /** The subcategory name `_guess_subcategory` answers. */
  function SubcategoryName(acText: string): string {
    GuessSubcategory(acText).Name()
  }

  /** `ac_map_to_tasks(ac_map)`. */
  function AcMapToTasks(m: AcMap): (ts: seq<Obj>)
    ensures |ts| == |m|
  {
    TasksOf(SortAcItems(m), ShortTitle, SubcategoryName)
  }

  /** One task per AC, in key order, with distinct ids. */
  lemma AcMapToTasksOnePerId(m: AcMap)
    ensures OneTaskPerId(AcMapToTasks(m), Keys(SortAcItems(m)))
    ensures Distinct(Keys(SortAcItems(m)))
  {
    TasksOfOnePerId(SortAcItems(m), ShortTitle, SubcategoryName);
    SortAcItemsDistinct(m);
  }

  /** Task `i` is the `i`-th AC in key order, numbered `T-` and `i + 1`, with its short
      title and guessed subcategory. */
  lemma AcMapToTasksFields(m: AcMap, i: nat)
    requires i < |m|
    ensures var e := SortAcItems(m)[i];
      var t := AcMapToTasks(m)[i];
      && TaskIds(JObj(t)) == [JStr(e.0)]
      && Get(t, "task_id", JNull) == JStr(TaskNumber(i + 1))
      && Get(t, "category", JNull) == JStr("Task") && Get(t, "status", JNull) == JStr("Todo")
      && Get(t, "title", JNull) == JStr(ShortTitle(e.1))
      && Get(t, "subcategory", JNull) == JStr(GuessSubcategory(e.1).Name())
  {
    TasksOfFields(SortAcItems(m), ShortTitle, SubcategoryName, i);
  }

  /** An id is covered by some task exactly when it is an id of the map. */
  lemma AcMapToTasksCover(m: AcMap, a: string)
    ensures (exists i :: 0 <= i < |m| && TaskCovers(JObj(AcMapToTasks(m)[i]), a)) <==> HasKey(m, a)
  {
    AcMapToTasksOnePerId(m);
    OneTaskPerIdCover(AcMapToTasks(m), Keys(SortAcItems(m)), a);
    SortAcItemsKeys(m, a);
  }

  /** No id is covered by two tasks. */
  lemma AcMapToTasksOnce(m: AcMap, a: string, i: nat, j: nat)
    requires i < |m| && j < |m|
    requires TaskCovers(JObj(AcMapToTasks(m)[i]), a) && TaskCovers(JObj(AcMapToTasks(m)[j]), a)
    ensures i == j
  {
    AcMapToTasksOnePerId(m);
    OneTaskPerIdOnce(AcMapToTasks(m), Keys(SortAcItems(m)), a, i, j);
  }
}
