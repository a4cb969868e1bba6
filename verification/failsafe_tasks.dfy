/**
 * `failsafe_taskgen.py`: the last resort of the pipeline. Every AC of the map becomes one
 * task, in map order, titled by its stripped text (cut at 90 characters) and filed under a
 * subcategory from a second, coarser keyword chain.
 */
module FailsafeTasks {
  import opened Strings
  import opened Seqs
  import opened PyJson
  import opened AcMaps
  import opened Keywords
  import opened GroupTaskgen
  import FallbackTasks

  // ---------------------------------------------------------------------------
  // _guess_subcategory
  // ---------------------------------------------------------------------------

  datatype MinSubcategory = Security | Audit | Logging | Db | Ui | Api | Validation | Other
  {
    function Name(): string {
      match this
      case Security => "Security"
      case Audit => "Audit"
      case Logging => "Logging"
      case Db => "DB"
      case Ui => "UI"
      case Api => "API"
      case Validation => "Validation"
      case Other => "General"
    }
  }

  /** The keyword tests of the failsafe `_guess_subcategory`, in source order. */
  const MIN_RULES: seq<Rule<MinSubcategory>> := [
    Rule(["sql injection", "sqli", "xss", "sanitize", "csrf", "security"], Security),
    Rule(["audit", "tamper", "監査", "改ざん", "耐改ざん"], Audit),
    Rule(["log", "ログ", "history"], Logging),
    Rule(["db", "schema", "migration", "index", "table"], Db),
    Rule(["ui", "screen", "responsive", "layout", "widget"], Ui),
    Rule(["api", "rest", "endpoint", "rate limit", "caching", "cache", "performance", "ms", "sec"], Api),
    Rule(["validation", "invalid", "format", "error when", "must reject"], Validation)]

  /** Each label has exactly one test, and none of them is the fallback. */
  lemma MinRules()
    ensures |MIN_RULES| == 7
    ensures forall j :: 0 <= j < 7 ==> MIN_RULES[j].outcome != Other
    ensures forall i, j :: 0 <= i < 7 && 0 <= j < 7 && MIN_RULES[i].outcome == MIN_RULES[j].outcome ==> i == j
    ensures MIN_RULES[0].keys[5] == "security"
  {
  }

  /** `_guess_subcategory(ac_text)`: the label of the first test whose keyword occurs in the
      lower-cased text, `General` when none does. */
  function MinGuess(acText: string): (c: MinSubcategory)
    ensures c == Other <==> forall i :: 0 <= i < |MIN_RULES| ==> !Fires(MIN_RULES[i], Lower(acText))
  {
    MinRules();
    Classify(MIN_RULES, Lower(acText), Other)
  }

  /** Since every label has its own test, a label is answered exactly when its test is the
      first to fire. */
  lemma MinGuessFirst(acText: string, k: int)
    requires 0 <= k < |MIN_RULES|
    ensures MinGuess(acText) == MIN_RULES[k].outcome <==> FirstFiring(MIN_RULES, Lower(acText), k)
  {
    MinRules();
    ClassifyUniqueOutcome(MIN_RULES, Lower(acText), Other, k);
  }

  /** The security test comes first: a text that mentions `security` is filed under
      `Security`, even a "security audit log". */
  lemma SecurityFirst(acText: string)
    requires Contains(Lower(acText), "security")
    ensures MinGuess(acText) == Security
  {
    MinRules();
    assert Fires(MIN_RULES[0], Lower(acText));
    ClassifyFirstRule(MIN_RULES, Lower(acText), Other, 0);
  }

  // ---------------------------------------------------------------------------
  // ac_map_to_min_tasks
  // ---------------------------------------------------------------------------

  /** Titles longer than this are cut. */
  const MIN_TITLE_MAX: nat := 90

  /** The title of a failsafe task: the stripped text, or its first 90 characters with
      trailing whitespace dropped and an ellipsis added. */
  function MinTitle(text: string): string {
    var t := Strip(text);
    if |t| > MIN_TITLE_MAX then RStrip(t[..MIN_TITLE_MAX]) + [FallbackTasks.ELLIPSIS] else t
  }

  /** A text of at most 90 characters after stripping is its own title; a longer one is cut
      to a non-empty prefix without trailing whitespace, followed by an ellipsis. */
  lemma MinTitleSpec(text: string)
    ensures var r := MinTitle(text);
      var t := Strip(text);
      && |r| <= MIN_TITLE_MAX + 1
      && (|r| == 0 <==> Blank(text))
      && (|t| <= MIN_TITLE_MAX ==> r == t)
      && (|t| > MIN_TITLE_MAX ==>
            && 1 < |r| && r[|r| - 1] == FallbackTasks.ELLIPSIS
            && StartsWith(t, r[..|r| - 1])
            && !IsSpace(r[|r| - 2]))
  {
    var t := Strip(text);
    StripSpec(text);
    if |t| > MIN_TITLE_MAX {
      var p := RStrip(t[..MIN_TITLE_MAX]);
      RStripSpec(t[..MIN_TITLE_MAX]);
      var r := MinTitle(text);
      assert r[..|r| - 1] == p;
      assert t[..|p|] == t[..MIN_TITLE_MAX][..|p|];
    }
  }

  /** The subcategory name of a failsafe task, guessed from the stripped text. */
  function MinSubcategoryName(text: string): string {
    MinGuess(Strip(text)).Name()
  }

  /** One failsafe task; unlike the fallback tasks it has no `task_id`. */
  function MinTask(id: string, title: string, sub: string): Obj {
    map[
      "ac_ids" := JArr([JStr(id)]),
      "category" := JStr("Task"),
      "status" := JStr("Todo"),
      "title" := JStr(title),
      "subcategory" := JStr(sub)]
  }

  /** The loop of `ac_map_to_min_tasks`, with the title and subcategory functions as
      parameters. */
  function MinTasksOf(m: seq<Entry>, titleOf: string -> string, subOf: string -> string): (ts: seq<Obj>)
    ensures |ts| == |m|
  {
    seq(|m|, i requires 0 <= i < |m| => MinTask(m[i].0, titleOf(m[i].1), subOf(m[i].1)))
  }

  /** Task `i` names the `i`-th AC of the map only, has no number, is a `Todo` of category
      `Task`, and takes its title and subcategory from the AC text. */
  lemma MinTasksOfFields(m: seq<Entry>, titleOf: string -> string, subOf: string -> string, i: nat)
    requires i < |m|
    ensures var t := MinTasksOf(m, titleOf, subOf)[i];
      && TaskIds(JObj(t)) == [JStr(m[i].0)]
      && "task_id" !in t
      && Get(t, "category", JNull) == JStr("Task") && Get(t, "status", JNull) == JStr("Todo")
      && Get(t, "title", JNull) == JStr(titleOf(m[i].1))
      && Get(t, "subcategory", JNull) == JStr(subOf(m[i].1))
  {
  }

  /** `ac_map_to_min_tasks(ac_map)`. */
  function AcMapToMinTasks(m: AcMap): (ts: seq<Obj>)
    ensures |ts| == |m|
  {
    MinTasksOf(m, MinTitle, MinSubcategoryName)
  }

  /** One task per AC, in map order. */
  lemma AcMapToMinTasksOnePerId(m: AcMap)
    ensures FallbackTasks.OneTaskPerId(AcMapToMinTasks(m), Keys(m))
  {
    forall i | 0 <= i < |m| ensures TaskIds(JObj(AcMapToMinTasks(m)[i])) == [JStr(Keys(m)[i])] {
      MinTasksOfFields(m, MinTitle, MinSubcategoryName, i);
    }
  }

  /** Task `i` is the `i`-th AC with its failsafe title and subcategory. */
  lemma AcMapToMinTasksFields(m: AcMap, i: nat)
    requires i < |m|
    ensures var t := AcMapToMinTasks(m)[i];
      && TaskIds(JObj(t)) == [JStr(m[i].0)]
      && "task_id" !in t
      && Get(t, "title", JNull) == JStr(MinTitle(m[i].1))
      && Get(t, "subcategory", JNull) == JStr(MinGuess(Strip(m[i].1)).Name())
  {
    MinTasksOfFields(m, MinTitle, MinSubcategoryName, i);
  }

  /** An id is covered by some failsafe task exactly when it is an id of the map: the
      failsafe output always covers every AC. */
  lemma AcMapToMinTasksCover(m: AcMap, a: string)
    ensures (exists i :: 0 <= i < |m| && TaskCovers(JObj(AcMapToMinTasks(m)[i]), a)) <==> HasKey(m, a)
  {
    AcMapToMinTasksOnePerId(m);
    FallbackTasks.OneTaskPerIdCover(AcMapToMinTasks(m), Keys(m), a);
  }

  /** No id is covered by two failsafe tasks. */
  lemma AcMapToMinTasksOnce(m: AcMap, a: string, i: nat, j: nat)
    requires i < |m| && j < |m|
    requires TaskCovers(JObj(AcMapToMinTasks(m)[i]), a) && TaskCovers(JObj(AcMapToMinTasks(m)[j]), a)
    ensures i == j
  {
    AcMapToMinTasksOnePerId(m);
    KeysDistinct(m);
    FallbackTasks.OneTaskPerIdOnce(AcMapToMinTasks(m), Keys(m), a, i, j);
  }
}
