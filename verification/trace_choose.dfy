/**
 * `_task_text` and `_choose_best_task`: the lexical score that picks which existing task
 * an uncovered AC is attached to.
 */
module TraceChoose {
  import opened Strings
  import opened Seqs
  import opened PyJson

  /** At most this many keywords of the AC text are scored. */
  const MAX_KEYWORDS: nat := 12

  /** `f"{task.get('title','')} {task.get('description','')}".lower()`. */
  function TaskText(t: Obj): string {
    Lower(PyStr(Get(t, "title", JStr(""))) + " " + PyStr(Get(t, "description", JStr(""))))
  }

  /** The words of the lower-cased AC text, with `(`, `)` and `/` read as spaces. */
  function AcWords(acText: string): seq<string> {
    Split(ReplaceChar(ReplaceChar(ReplaceChar(Lower(acText), '(', ' '), ')', ' '), '/', ' '))
  }

  /** The words of at least four characters, in order. */
  function Keywords(acText: string): (ks: seq<string>)
    ensures forall k :: k in ks <==> k in AcWords(acText) && |k| >= 4
  {
    Filter(AcWords(acText), (k: string) => |k| >= 4)
  }

  /** `keys[:12]`. */
  function Scored(keys: seq<string>): (ks: seq<string>)
    ensures |ks| <= MAX_KEYWORDS && IsPrefix(ks, keys)
    ensures |keys| <= MAX_KEYWORDS ==> ks == keys
  {
    if |keys| <= MAX_KEYWORDS then keys else keys[..MAX_KEYWORDS]
  }

  predicate IsPrefix<T(==)>(a: seq<T>, b: seq<T>) {
    |a| <= |b| && b[..|a|] == a
  }

  /** `sum(1 for k in keys if k in txt)`: occurrences count once per listed keyword. */
  function Score(keys: seq<string>, txt: string): (n: nat)
    decreases |keys|
  {
    if |keys| == 0 then 0 else (if Contains(txt, keys[0]) then 1 else 0) + Score(keys[1..], txt)
  }

  /** The score is the number of positions of `keys` whose keyword occurs in the text. */
  lemma {:induction false} ScoreBounds(keys: seq<string>, txt: string)
    ensures Score(keys, txt) <= |keys|
    ensures Score(keys, txt) == 0 <==> forall i :: 0 <= i < |keys| ==> !Contains(txt, keys[i])
    ensures Score(keys, txt) == |keys| <==> forall i :: 0 <= i < |keys| ==> Contains(txt, keys[i])
    decreases |keys|
  {
    if |keys| > 0 {
      ScoreBounds(keys[1..], txt);
      assert forall i :: 1 <= i < |keys| ==> keys[1..][i - 1] == keys[i];
    }
  }

  /** The score of every task against an AC text, in task order. */
  function Scores(tasks: seq<Obj>, acText: string): (ss: seq<nat>)
    ensures |ss| == |tasks|
  {
    seq(|tasks|, i requires 0 <= i < |tasks| => Score(Scored(Keywords(acText)), TaskText(tasks[i])))
  }

  /** The loop of `_choose_best_task` from position `i` on, with the best index and score so
      far; a strictly higher score is needed to move, so ties stay with the first. */
  function BestFrom(scores: seq<nat>, i: nat, bestI: nat, best: int): nat
    requires i <= |scores|
    decreases |scores| - i
  {
    if i == |scores| then bestI
    else if scores[i] > best then BestFrom(scores, i + 1, i, scores[i])
    else BestFrom(scores, i + 1, bestI, best)
  }

  /** `_choose_best_task(tasks, ac_text)`: -1 for no task. */
  function ChooseBest(tasks: seq<Obj>, acText: string): int {
    if |tasks| == 0 then -1 else BestFrom(Scores(tasks, acText), 0, 0, -1)
  }

  /** The first position holding the highest score. */
  predicate FirstMax(scores: seq<nat>, r: int) {
    && 0 <= r < |scores|
    && (forall j :: 0 <= j < |scores| ==> scores[j] <= scores[r])
    && (forall j :: 0 <= j < r ==> scores[j] < scores[r])
  }

  /** The loop keeps the first index of the highest score seen so far. */
  lemma {:induction false} BestFromSpec(scores: seq<nat>, i: nat, bestI: nat, best: int)
    requires 0 < i <= |scores| && bestI < i
    requires best == scores[bestI]
    requires forall j :: 0 <= j < i ==> scores[j] <= best
    requires forall j :: 0 <= j < bestI ==> scores[j] < best
    ensures FirstMax(scores, BestFrom(scores, i, bestI, best))
    decreases |scores| - i
  {
    if i < |scores| {
      if scores[i] > best {
        BestFromSpec(scores, i + 1, i, scores[i]);
      } else {
        BestFromSpec(scores, i + 1, bestI, best);
      }
    }
  }

  /** No task gives -1; otherwise the answer is the first task of highest score. */
  lemma ChooseBestSpec(tasks: seq<Obj>, acText: string)
    ensures ChooseBest(tasks, acText) == -1 <==> |tasks| == 0
    ensures |tasks| > 0 ==> FirstMax(Scores(tasks, acText), ChooseBest(tasks, acText))
  {
    if |tasks| > 0 {
      BestOfSpec(Scores(tasks, acText));
    }
  }

  /** The whole loop over non-empty scores ends on the first highest one. */
  lemma BestOfSpec(ss: seq<nat>)
    requires |ss| > 0
    ensures FirstMax(ss, BestFrom(ss, 0, 0, -1))
  {
    BestFromSpec(ss, 1, 0, ss[0]);
    assert BestFrom(ss, 0, 0, -1) == BestFrom(ss, 1, 0, ss[0]);
  }

  /** When no keyword occurs anywhere, the first task is chosen. */
  lemma ChooseBestNoMatch(tasks: seq<Obj>, acText: string)
    requires |tasks| > 0
    requires forall j :: 0 <= j < |tasks| ==> Scores(tasks, acText)[j] == 0
    ensures ChooseBest(tasks, acText) == 0
  {
    ChooseBestSpec(tasks, acText);
  }

  /** The text of a task depends only on its title and description. */
  lemma TaskTextSame(t0: Obj, t1: Obj)
    requires Get(t0, "title", JStr("")) == Get(t1, "title", JStr(""))
    requires Get(t0, "description", JStr("")) == Get(t1, "description", JStr(""))
    ensures TaskText(t0) == TaskText(t1)
  {
  }

  /** Tasks with the same texts lead to the same choice. */
  lemma ChooseBestSameTexts(t0: seq<Obj>, t1: seq<Obj>, acText: string)
    requires |t0| == |t1|
    requires forall k :: 0 <= k < |t0| ==> TaskText(t0[k]) == TaskText(t1[k])
    ensures ChooseBest(t0, acText) == ChooseBest(t1, acText)
  {
    assert Scores(t0, acText) == Scores(t1, acText);
  }
}
