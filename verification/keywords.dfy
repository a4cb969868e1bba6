/**
 * Ordered keyword rules: the planner's heuristic classifiers are chains of
 * `if any(k in t for k in keys): return label`, where the first rule that
 * fires wins.
 */
module Keywords {
  import opened Strings

  datatype Rule<L> = Rule(keys: seq<string>, outcome: L)

  predicate Fires<L>(rule: Rule<L>, t: string) {
    ContainsAny(t, rule.keys)
  }

  /** Rule `i` fires on `t` and no earlier rule does. */
  predicate FirstFiring<L>(rules: seq<Rule<L>>, t: string, i: int) {
    0 <= i < |rules| && Fires(rules[i], t) && forall j :: 0 <= j < i ==> !Fires(rules[j], t)
  }

  /** The label of the first rule that fires on `t`, or `otherwise` when none does. */
  function Classify<L>(rules: seq<Rule<L>>, t: string, otherwise: L): (r: L)
    ensures (exists i :: FirstFiring(rules, t, i) && r == rules[i].outcome)
         || ((forall i :: 0 <= i < |rules| ==> !Fires(rules[i], t)) && r == otherwise)
  {
    if |rules| == 0 then otherwise
    else if Fires(rules[0], t) then
      assert FirstFiring(rules, t, 0);
      rules[0].outcome
    else
      var r := Classify(rules[1..], t, otherwise);
      assert forall i :: FirstFiring(rules[1..], t, i) ==> FirstFiring(rules, t, i + 1) by {
        forall i | FirstFiring(rules[1..], t, i) ensures FirstFiring(rules, t, i + 1) {
          forall j | 0 <= j < i + 1 ensures !Fires(rules[j], t) {
            if j > 0 {
              assert rules[j] == rules[1..][j - 1];
            }
          }
        }
      }
      assert (forall i :: 0 <= i < |rules[1..]| ==> !Fires(rules[1..][i], t))
          ==> (forall i :: 0 <= i < |rules| ==> !Fires(rules[i], t)) by {
        if forall i :: 0 <= i < |rules[1..]| ==> !Fires(rules[1..][i], t) {
          forall i | 0 <= i < |rules| ensures !Fires(rules[i], t) {
            if i > 0 {
              assert rules[i] == rules[1..][i - 1];
            }
          }
        }
      }
      r
  }

  /** When some rule fires, the classifier answers with the label of the first one. */
  lemma ClassifyFirstRule<L>(rules: seq<Rule<L>>, t: string, otherwise: L, i: int)
    requires FirstFiring(rules, t, i)
    ensures Classify(rules, t, otherwise) == rules[i].outcome
  {
    var r := Classify(rules, t, otherwise);
    if exists k :: FirstFiring(rules, t, k) && r == rules[k].outcome {
      var k :| FirstFiring(rules, t, k) && r == rules[k].outcome;
      assert !(k < i) && !(i < k);
    }
  }

  /** When rule `k` is the only one with its label, and that label is not the fallback,
      the classifier answers that label exactly when rule `k` is the first to fire. */
  lemma ClassifyUniqueOutcome<L>(rules: seq<Rule<L>>, t: string, otherwise: L, k: int)
    requires 0 <= k < |rules| && rules[k].outcome != otherwise
    requires forall j :: 0 <= j < |rules| && rules[j].outcome == rules[k].outcome ==> j == k
    ensures Classify(rules, t, otherwise) == rules[k].outcome <==> FirstFiring(rules, t, k)
  {
    if FirstFiring(rules, t, k) {
      ClassifyFirstRule(rules, t, otherwise, k);
    }
  }

  /** When rule `k` fires, the answer is the label of rule `k` or of an earlier rule. */
  lemma ClassifyNoLaterThan<L>(rules: seq<Rule<L>>, t: string, otherwise: L, k: int) returns (j: int)
    requires 0 <= k < |rules| && Fires(rules[k], t)
    ensures 0 <= j <= k && Classify(rules, t, otherwise) == rules[j].outcome
  {
    var r := Classify(rules, t, otherwise);
    j :| FirstFiring(rules, t, j) && r == rules[j].outcome;
  }
}
