/**
 * `story_refinement/workflow.py`: the review loop over a user story and its ACs. A panel
 * scores the story; while the score stays below the target and the round limit is not
 * reached, the panel's critique is turned into a list of issues and the issues into a revised
 * story, which goes back to the panel. The three services are oracles: the `k`-th call of each
 * gets the `k`-th reply, and a failed call ends the whole run with an error.
 */
module Refinement {
  import opened Wrappers

  /** The score at which the panel is satisfied. */
  const TARGET_SCORE: int := 85
  /** The number of revisions after which the loop gives up. */
  const MAX_ITERATIONS: int := 5

  /** `RefinementState`, with the story-and-ACs value left abstract. */
  datatype State<S> = State(
    usAc: S,
    score: Option<int>,
    feedback: Option<string>,
    issues: Option<seq<string>>,
    iteration: int)

  /** The state the loop starts from. */
  function Initial<S>(usAc: S): State<S> {
    State(usAc, None, None, None, 0)
  }

  /** The panel's verdict: the aggregated score and the aggregated reasons. */
  datatype Review = Review(score: int, reasons: string)

  /** The replies of the three services. */
  datatype Services<S> = Services(
    classify: seq<Reply<Review>>,
    detect: seq<Reply<seq<string>>>,
    suggest: seq<Reply<S>>)

  /** The nodes of the graph; `Finished` is `END`. */
  datatype Node = Classifier | IssueDetection | Suggestion | Finished

  // ---------------------------------------------------------------------------
  // Nodes and edges
  // ---------------------------------------------------------------------------

  /** The panel is satisfied with the current story. */
  predicate Satisfied<S>(st: State<S>) {
    st.score.Some? && st.score.value >= TARGET_SCORE
  }

  /** `should_continue(state)`: stop once the score reaches the target, whatever the
      iteration, or once the iteration reaches the limit; otherwise go on to issue
      detection. */
  function ShouldContinue<S>(st: State<S>): (n: Node)
    ensures n == Finished || n == IssueDetection
    ensures n == Finished <==> Satisfied(st) || st.iteration >= MAX_ITERATIONS
  {
    if st.score.Some? && st.score.value >= TARGET_SCORE then Finished
    else if st.iteration >= MAX_ITERATIONS then Finished
    else IssueDetection
  }

  /** `classifier_node`: records the panel's score and reasons. */
  function ClassifierNode<S>(st: State<S>, rv: Review): State<S> {
    st.(score := Some(rv.score), feedback := Some(rv.reasons))
  }

  /** `issue_detection_node`: records the issues. */
  function IssueDetectionNode<S>(st: State<S>, issues: seq<string>): State<S> {
    st.(issues := Some(issues))
  }

  /** `suggestion_node`: replaces the story by its revision and counts the round. */
  function SuggestionNode<S>(st: State<S>, refined: S): State<S> {
    st.(usAc := refined, iteration := st.iteration + 1)
  }

  /** The edges of `build_refinement_workflow`: the conditional edge after the classifier,
      issue detection to suggestion, suggestion back to the classifier. */
  function Edge<S>(n: Node, st: State<S>): Node {
    match n
    case Classifier => ShouldContinue(st)
    case IssueDetection => Suggestion
    case Suggestion => Classifier
    case Finished => Finished
  }

  // ---------------------------------------------------------------------------
  // The machine
  // ---------------------------------------------------------------------------

  /** A point of a run: the node about to execute, the state, and how many revisions the run
      has made, which is also the index of the next call to each service. */
  datatype Machine<S> = Machine(at: Node, st: State<S>, round: nat)

  /** Issue detection and suggestion are only entered below the round limit. */
  predicate Pending<S>(m: Machine<S>) {
    (m.at == IssueDetection || m.at == Suggestion) ==> m.st.iteration < MAX_ITERATIONS
  }

  /** What is left of a run: three node executions per remaining revision. */
  function Measure<S>(m: Machine<S>): nat {
    var d: nat := if m.st.iteration < MAX_ITERATIONS then MAX_ITERATIONS - m.st.iteration else 0;
    match m.at
    case Classifier => 3 * d + 2
    case IssueDetection => 3 * d + 1
    case Suggestion => 3 * d
    case Finished => 0
  }

  /** Executes the current node with its service reply and follows its edge. */
  function Step<S>(m: Machine<S>, svc: Services<S>): (r: Result<Machine<S>>)
    requires m.at != Finished && Pending(m)
    ensures r.Ok? ==> Pending(r.value) && Measure(r.value) < Measure(m)
    ensures r.Ok? ==> r.value.at == Edge(m.at, r.value.st)
  {
    match m.at
    case Classifier =>
      (match ReplyAt(svc.classify, m.round)
       case Answer(rv) =>
         var st := ClassifierNode(m.st, rv);
         Ok(Machine(ShouldContinue(st), st, m.round))
       case CallFailed(e) => Err(e))
    case IssueDetection =>
      (match ReplyAt(svc.detect, m.round)
       case Answer(issues) => Ok(Machine(Suggestion, IssueDetectionNode(m.st, issues), m.round))
       case CallFailed(e) => Err(e))
    case Suggestion =>
      (match ReplyAt(svc.suggest, m.round)
       case Answer(refined) => Ok(Machine(Classifier, SuggestionNode(m.st, refined), m.round + 1))
       case CallFailed(e) => Err(e))
  }

  /** Only the suggestion node moves the iteration, by exactly one, and replaces the story;
      the classifier and issue detection keep both. */
  lemma StepIteration<S>(m: Machine<S>, svc: Services<S>)
    requires m.at != Finished && Pending(m)
    ensures Step(m, svc).Ok? ==>
      var n := Step(m, svc).value;
      && n.st.iteration == m.st.iteration + (if m.at == Suggestion then 1 else 0)
      && n.round == m.round + (if m.at == Suggestion then 1 else 0)
      && (m.at != Suggestion ==> n.st.usAc == m.st.usAc)
      && (m.at == Suggestion ==> n.st.usAc == ReplyAt(svc.suggest, m.round).body)
  {
  }

  /** `app.invoke(state)`: runs the graph until `END`; any failed service call aborts it. */
  function Run<S>(m: Machine<S>, svc: Services<S>): Result<State<S>>
    requires Pending(m)
    decreases Measure(m)
  {
    if m.at == Finished then Ok(m.st)
    else
      match Step(m, svc)
      case Ok(n) => Run(n, svc)
      case Err(e) => Err(e)
  }

  /** The whole loop from the initial state, entering at the classifier. */
  function Refine<S>(usAc: S, svc: Services<S>): Result<State<S>> {
    Run(Machine(Classifier, Initial(usAc), 0), svc)
  }

  // ---------------------------------------------------------------------------
  // The loop read off the replies
  // ---------------------------------------------------------------------------

  /** The panel's reply in round `k` reaches the target. */
  predicate Reached(classify: seq<Reply<Review>>, k: nat) {
    ReplyAt(classify, k).Answer? && ReplyAt(classify, k).body.score >= TARGET_SCORE
  }

  /** The round at which a loop entered at round `r` with iteration `it0 + r` stops: the first
      round from `r` whose score reaches the target or whose iteration reaches the limit. */
  function StopRound(classify: seq<Reply<Review>>, it0: int, r: nat): (s: nat)
    ensures r <= s
    ensures it0 + s >= MAX_ITERATIONS || Reached(classify, s)
    ensures forall k :: r <= k < s ==> it0 + k < MAX_ITERATIONS && !Reached(classify, k)
    decreases if it0 + r < MAX_ITERATIONS then MAX_ITERATIONS - (it0 + r) else 0
  {
    if it0 + r >= MAX_ITERATIONS || Reached(classify, r) then r
    else StopRound(classify, it0, r + 1)
  }

  /** Every service call of rounds `r` to `s` is answered: the panel in each of them, issue
      detection and suggestion in all but the last. */
  predicate AllAnswered<S>(svc: Services<S>, r: nat, s: nat) {
    && (forall k :: r <= k <= s ==> ReplyAt(svc.classify, k).Answer?)
    && (forall k :: r <= k < s ==> ReplyAt(svc.detect, k).Answer? && ReplyAt(svc.suggest, k).Answer?)
  }

  /** The state a loop entered at round `r` in `st` ends in after stopping at round `s`: the
      last revision of the story, the last issues and the last verdict, `s - r` revisions
      later. */
  function Outcome<S>(st: State<S>, svc: Services<S>, r: nat, s: nat): State<S>
    requires r <= s && AllAnswered(svc, r, s)
  {
    var rv := ReplyAt(svc.classify, s).body;
    State(
      if s == r then st.usAc else ReplyAt(svc.suggest, s - 1).body,
      Some(rv.score),
      Some(rv.reasons),
      if s == r then st.issues else Some(ReplyAt(svc.detect, s - 1).body),
      st.iteration + (s - r))
  }

  /** One revision round: with the panel below the target and under the limit, the run from
      the classifier at round `r` is the run from the classifier at round `r + 1`, after the
      revision. */
  lemma RoundStep<S>(st: State<S>, r: nat, svc: Services<S>)
    requires ReplyAt(svc.classify, r).Answer? && ReplyAt(svc.detect, r).Answer? && ReplyAt(svc.suggest, r).Answer?
    requires st.iteration < MAX_ITERATIONS && !Reached(svc.classify, r)
    ensures var st1 := ClassifierNode(st, ReplyAt(svc.classify, r).body);
      var st2 := IssueDetectionNode(st1, ReplyAt(svc.detect, r).body);
      var st3 := SuggestionNode(st2, ReplyAt(svc.suggest, r).body);
      Run(Machine(Classifier, st, r), svc) == Run(Machine(Classifier, st3, r + 1), svc)
  {
    var st1 := ClassifierNode(st, ReplyAt(svc.classify, r).body);
    var st2 := IssueDetectionNode(st1, ReplyAt(svc.detect, r).body);
    assert ShouldContinue(st1) == IssueDetection;
    assert Run(Machine(Classifier, st, r), svc) == Run(Machine(IssueDetection, st1, r), svc);
    assert Run(Machine(IssueDetection, st1, r), svc) == Run(Machine(Suggestion, st2, r), svc);
  }

  /** The run from the classifier at round `r` with iteration `it0 + r` succeeds exactly when
      every call up to the stop round is answered, and then ends in the outcome of that
      round. */
  lemma {:induction false} RunFrom<S>(st: State<S>, it0: int, r: nat, svc: Services<S>)
    requires st.iteration == it0 + r
    ensures var s := StopRound(svc.classify, it0, r);
      && (Run(Machine(Classifier, st, r), svc).Ok? <==> AllAnswered(svc, r, s))
      && (AllAnswered(svc, r, s) ==> Run(Machine(Classifier, st, r), svc).value == Outcome(st, svc, r, s))
    decreases if it0 + r < MAX_ITERATIONS then MAX_ITERATIONS - (it0 + r) else 0
  {
    var s := StopRound(svc.classify, it0, r);
    var m := Machine(Classifier, st, r);
    match ReplyAt(svc.classify, r)
    case CallFailed(e) =>
      assert Run(m, svc) == Err(e);
    case Answer(rv) =>
      var st1 := ClassifierNode(st, rv);
      if s == r {
        assert ShouldContinue(st1) == Finished;
        assert Run(m, svc) == Ok(st1);
      } else {
        var m1 := Machine(IssueDetection, st1, r);
        assert Run(m, svc) == Run(m1, svc);
        match ReplyAt(svc.detect, r)
        case CallFailed(e) =>
          assert Run(m1, svc) == Err(e);
        case Answer(issues) =>
          var st2 := IssueDetectionNode(st1, issues);
          var m2 := Machine(Suggestion, st2, r);
          assert Run(m1, svc) == Run(m2, svc);
          match ReplyAt(svc.suggest, r)
          case CallFailed(e) =>
            assert Run(m2, svc) == Err(e);
          case Answer(refined) =>
            var st3 := SuggestionNode(st2, refined);
            assert Run(m2, svc) == Run(Machine(Classifier, st3, r + 1), svc);
            RunFrom(st3, it0, r + 1, svc);
            assert StopRound(svc.classify, it0, r + 1) == s;
            assert AllAnswered(svc, r, s) <==> AllAnswered(svc, r + 1, s);
            if AllAnswered(svc, r, s) {
              assert Outcome(st, svc, r, s) == Outcome(st3, svc, r + 1, s);
            }
      }
  }

  /** From the initial state the loop makes at most `MAX_ITERATIONS` revisions; it succeeds
      exactly when every call up to its stop round is answered; and it ends in a state the
      decision sends to `END`, short of the limit only when the panel is satisfied. */
  lemma RefineSpec<S>(usAc: S, svc: Services<S>)
    ensures var s := StopRound(svc.classify, 0, 0);
      && s <= MAX_ITERATIONS
      && (Refine(usAc, svc).Ok? <==> AllAnswered(svc, 0, s))
      && (Refine(usAc, svc).Ok? ==>
            var fin := Refine(usAc, svc).value;
            && fin == Outcome(Initial(usAc), svc, 0, s)
            && fin.iteration == s
            && ShouldContinue(fin) == Finished
            && (fin.iteration < MAX_ITERATIONS ==> Satisfied(fin)))
  {
    RunFrom(Initial(usAc), 0, 0, svc);
  }
}
