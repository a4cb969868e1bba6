/**
 * `batch_run.py`: runs the per-AC pipeline over the ACs of one story in windows of `batch`
 * ACs, and renumbers each window's items with their position in the whole list. The
 * pipeline itself, the part files and the `--resume` existence test are left out.
 */
module BatchRun {
  import opened Wrappers
  import opened Strings
  import opened PyJson
  import opened Policy
  import RunMain

  // ---------------------------------------------------------------------------
  // extract_acs
  // ---------------------------------------------------------------------------

  /** `[str(x).strip() for x in xs]`, with `str` as a parameter. */
  function StripAll(xs: seq<Json>, str: Json -> string): (r: seq<string>)
    ensures |r| == |xs|
    ensures forall i :: 0 <= i < |xs| ==> r[i] == Strip(str(xs[i]))
  {
    seq(|xs|, i requires 0 <= i < |xs| => Strip(str(xs[i])))
  }

  /** The object `extract_acs` reads: the first element of a non-empty list, otherwise the
      input itself. */
  function InputObject(input: Json): Json {
    if input.JArr? && |input.items| > 0 then input.items[0] else input
  }

  /** `extract_acs(input_obj)`. */
  function ExtractAcs(input: Json): seq<string> {
    var x := InputObject(input);
    if !x.JObj? then []
    else
      var crit := Get(x.fields, "acceptance_criteria", JNull);
      var items := Get(x.fields, "items", JNull);
      if crit.JArr? then RunMain.NonBlankTexts(crit.items, PyStr)
      else if items.JArr? then StripAll(RunMain.AcTextValues(items.items), PyStr)
      else []
  }

  /** An `acceptance_criteria` list is the only source whenever it is a list, even when it
      gives no AC; `items` is read only when it is not a list, and then every truthy
      `ac_text` is kept once stripped, blank or not. */
  lemma ExtractAcsSources(input: Json)
    ensures var x := InputObject(input);
      && (!x.JObj? ==> ExtractAcs(input) == [])
      && (x.JObj? && Get(x.fields, "acceptance_criteria", JNull).JArr? ==> ExtractAcs(input) == RunMain.CriteriaTexts(x.fields))
      && (x.JObj? && !Get(x.fields, "acceptance_criteria", JNull).JArr? && Get(x.fields, "items", JNull).JArr? ==>
            |ExtractAcs(input)| == |RunMain.AcTextValues(Get(x.fields, "items", JNull).items)|)
  {
  }

  /** When the criteria list gives some AC, `extract_acs` and `run.py`'s extraction agree. */
  lemma ExtractAcsAgreesWithRun(input: Json)
    requires InputObject(input).JObj?
    requires |RunMain.CriteriaTexts(InputObject(input).fields)| > 0
    ensures ExtractAcs(input) == RunMain.ExtractStoryAndAcs(InputObject(input).fields).1
  {
  }

  /** Unlike `run.py`, a blank but truthy `ac_text` gives an empty AC. */
  lemma BlankItemKept()
    ensures ExtractAcs(JObj(map["items" := JArr([JObj(map["ac_text" := JStr(" ")])])])) == [""]
  {
    var item := JObj(map["ac_text" := JStr(" ")]);
    var x := map["items" := JArr([item])];
    assert Get(x, "acceptance_criteria", JNull) == JNull;
    assert RunMain.AcTextValues([item]) == [JStr(" ")] by {
      assert RunMain.AcTextValues([item][1..]) == [];
    }
    assert Strip(" ") == "";
  }

  // ---------------------------------------------------------------------------
  // max_tasks_from_global_score
  // ---------------------------------------------------------------------------

  /** `max_tasks_from_global_score(score)`. */
  function MaxTasksFromGlobalScore(score: int): (k: int)
    ensures k in {2, 3, 5}
  {
    if 0 <= score <= 40 then 5
    else if 41 <= score <= 70 then 3
    else if 71 <= score <= 90 then 2
    else 3
  }

  /** On scores from 0 to 90 the batch tiers are those of `run.py`; below 0 and above 90 the
      batch runner falls back to 3 where `run.py` gives 5 and 2. */
  lemma GlobalScoreAgreesWithRun(score: int)
    ensures 0 <= score <= 90 ==> MaxTasksFromGlobalScore(score) == RunMain.MaxTasksFromScore(score)
    ensures score < 0 ==> MaxTasksFromGlobalScore(score) == 3 && RunMain.MaxTasksFromScore(score) == 5
    ensures score > 90 ==> MaxTasksFromGlobalScore(score) == 3 && RunMain.MaxTasksFromScore(score) == 2
  {
  }

  // ---------------------------------------------------------------------------
  // The windows of main
  // ---------------------------------------------------------------------------

  /** A 1-based, inclusive range of ACs. */
  datatype Window = Window(start: nat, end: nat)

  /** `ws` splits `1..total` into consecutive non-empty windows of at most `batch` ACs, all
      but the last of exactly `batch`. */
  predicate Tiling(ws: seq<Window>, total: nat, batch: nat) {
    && (|ws| == 0 <==> total == 0)
    && (|ws| > 0 ==> ws[0].start == 1 && ws[|ws| - 1].end == total)
    && (forall k :: 0 <= k < |ws| ==> 1 <= ws[k].start <= ws[k].end <= total && ws[k].end - ws[k].start < batch)
    && (forall k :: 0 <= k < |ws| - 1 ==> ws[k].end - ws[k].start + 1 == batch)
    && (forall k :: 0 <= k < |ws| - 1 ==> ws[k + 1].start == ws[k].end + 1)
  }

  /** The `while start <= total` loop of `main`: the windows it runs, in order. */
  method BatchWindows(total: nat, batchArg: int) returns (ws: seq<Window>)
    ensures Tiling(ws, total, Max(1, batchArg))
  {
    var batch := Max(1, batchArg);
    ws := [];
    var start := 1;
    while start <= total
      invariant 1 <= start <= total + 1
      invariant |ws| == 0 <==> start == 1
      invariant |ws| > 0 ==> ws[0].start == 1 && ws[|ws| - 1].end == start - 1
      invariant forall k :: 0 <= k < |ws| ==> 1 <= ws[k].start <= ws[k].end < start && ws[k].end - ws[k].start < batch
      invariant |ws| > 0 ==> ws[|ws| - 1].end - ws[|ws| - 1].start + 1 == batch || start == total + 1
      invariant forall k :: 0 <= k < |ws| - 1 ==> ws[k].end - ws[k].start + 1 == batch
      invariant forall k :: 0 <= k < |ws| - 1 ==> ws[k + 1].start == ws[k].end + 1
      decreases total + 1 - start
    {
      var end := Min(total, start + batch - 1);
      ws := ws + [Window(start, end)];
      start := end + 1;
    }
  }

  /** `acs[start - 1 : end]`. */
  function Subset(acs: seq<string>, w: Window): seq<string>
    requires 1 <= w.start && w.end <= |acs| && w.start <= w.end + 1
  {
    acs[w.start - 1..w.end]
  }

  /** The ACs the windows hand to the pipeline, one window after the other. */
  function Handed(acs: seq<string>, ws: seq<Window>): seq<string>
    requires forall k :: 0 <= k < |ws| ==> 1 <= ws[k].start <= ws[k].end <= |acs|
  {
    if |ws| == 0 then [] else Handed(acs, ws[..|ws| - 1]) + Subset(acs, ws[|ws| - 1])
  }

  /** The first `n` windows of a tiling hand over exactly the ACs up to the end of window
      `n`. */
  lemma {:induction false} HandedPrefix(acs: seq<string>, ws: seq<Window>, batch: nat, n: nat)
    requires Tiling(ws, |acs|, batch)
    requires 0 < n <= |ws|
    ensures Handed(acs, ws[..n]) == acs[..ws[n - 1].end]
  {
    if n == 1 {
      assert ws[..1][..0] == [];
    } else {
      HandedPrefix(acs, ws, batch, n - 1);
      assert ws[..n][..n - 1] == ws[..n - 1];
      assert acs[..ws[n - 2].end] + acs[ws[n - 1].start - 1..ws[n - 1].end] == acs[..ws[n - 1].end];
    }
  }

  /** Every AC is handed to the pipeline exactly once, in order. */
  lemma HandedAll(acs: seq<string>, ws: seq<Window>, batch: nat)
    requires Tiling(ws, |acs|, batch)
    ensures Handed(acs, ws) == acs
  {
    if |ws| > 0 {
      HandedPrefix(acs, ws, batch, |ws|);
      assert ws[..|ws|] == ws;
    }
  }

  /** `for i, it in enumerate(items, start=start): if isinstance(it, dict): it["ac_index"] = i`. */
  function Renumber(items: seq<Json>, start: int): (r: seq<Json>)
    ensures |r| == |items|
  {
    seq(|items|, k requires 0 <= k < |items| =>
      if items[k].JObj? then JObj(items[k].fields["ac_index" := JInt(start + k)]) else items[k])
  }

  /** The `k`-th dictionary item of a window's result gets the position in the whole list of
      the `k`-th AC of the window, and keeps every other key; other items are untouched. */
  lemma RenumberSpec(acs: seq<string>, w: Window, items: seq<Json>, k: nat)
    requires 1 <= w.start <= w.end <= |acs|
    requires k < |items|
    ensures items[k].JObj? ==>
      && Renumber(items, w.start)[k].JObj?
      && Get(Renumber(items, w.start)[k].fields, "ac_index", JNull) == JInt(w.start + k)
      && (forall key :: key in items[k].fields && key != "ac_index" ==>
            key in Renumber(items, w.start)[k].fields && Renumber(items, w.start)[k].fields[key] == items[k].fields[key])
    ensures !items[k].JObj? ==> Renumber(items, w.start)[k] == items[k]
    ensures k <= w.end - w.start ==> Subset(acs, w)[k] == acs[(w.start + k) - 1]
  {
  }

  // ---------------------------------------------------------------------------
  // main, up to the windows
  // ---------------------------------------------------------------------------

  /** The ACs `main` runs: `acs[:limit]` for a positive limit, and an error when none are
      left. */
  function SelectAcs(input: Json, limit: int): (r: Result<seq<string>>)
    ensures r.Ok? ==> 0 < |r.value| <= |ExtractAcs(input)| && r.value == ExtractAcs(input)[..|r.value|]
    ensures r.Ok? && limit > 0 ==> |r.value| == Min(limit, |ExtractAcs(input)|)
    ensures r.Err? <==> |ExtractAcs(input)| == 0
  {
    var acs := ExtractAcs(input);
    var kept := if limit > 0 && limit < |acs| then acs[..limit] else acs;
    if |kept| == 0 then Err("No acceptance_criteria found.") else Ok(kept)
  }
}
