/**
 * `distribution_of_users_per_scenario` end to end (grizzly_cli/utils.py):
 * read the template variables, extract one descriptor per unique scenario
 * name, check the budget and the user types, share the budget out by
 * weight, print the summary table, refuse a descriptor with more users
 * than iterations, and finally ask whether to continue unless `--yes` was
 * given.
 */
module Planner {
  import opened Errors
  import opened Numbers
  import opened TypeGuess
  import opened Steps
  import opened Extraction
  import opened Allocation
  import opened Report
  import opened Gate

  const ConfirmQuestion: string := "continue?"

  /** The position of the first element satisfying `p`. */
  function FirstWhere<T>(s: seq<T>, p: T -> bool): (r: Option<nat>)
    ensures r.None? <==> forall k :: 0 <= k < |s| ==> !p(s[k])
    ensures r.Some? ==> r.value < |s| && p(s[r.value]) && forall k :: 0 <= k < r.value ==> !p(s[k])
    decreases |s|
  {
    if |s| == 0 then None
    else if p(s[0]) then Some(0)
    else
      match FirstWhere(s[1..], p)
      case None => None
      case Some(k) =>
        assert forall j :: 1 <= j <= k ==> s[j] == s[1..][j - 1];
        Some(k + 1)
  }

  predicate NoUser(spec: Spec) {
    spec.user.None?
  }

  /** More users than iterations. */
  predicate Short(spec: Spec) {
    spec.iterations < spec.userCount
  }

  function Weights(specs: seq<Spec>): (r: seq<int>)
    ensures |r| == |specs| && forall k :: 0 <= k < |specs| ==> r[k] == specs[k].weight
  {
    seq(|specs|, k requires 0 <= k < |specs| => specs[k].weight)
  }

  function Counts(specs: seq<Spec>): (r: seq<int>)
    ensures |r| == |specs| && forall k :: 0 <= k < |specs| ==> r[k] == specs[k].userCount
  {
    seq(|specs|, k requires 0 <= k < |specs| => specs[k].userCount)
  }

  function WithCounts(specs: seq<Spec>, counts: seq<int>): (r: seq<Spec>)
    requires |counts| == |specs|
    ensures |r| == |specs| && forall k :: 0 <= k < |specs| ==> r[k] == specs[k].(userCount := counts[k])
  {
    seq(|specs|, k requires 0 <= k < |specs| => specs[k].(userCount := counts[k]))
  }

  /**
   * The checks and the allocation between the extraction loop and the
   * table: at least one user per descriptor, then every descriptor has a
   * user type, then the shares. The source divides by the total weight,
   * so a zero total fails as soon as there is a descriptor to divide for.
   */
  function Allocate(ext: Extracted): (r: Result<seq<Spec>>)
    ensures r.Ok? ==> |r.value| == |ext.specs|
    ensures r.Ok? ==> forall k :: 0 <= k < |ext.specs| ==> r.value[k] == ext.specs[k].(userCount := r.value[k].userCount)
  {
    var specs := ext.specs;
    if |specs| > ext.budget then Err(InsufficientUsers(|specs|))
    else
      match FirstWhere(specs, NoUser)
      case Some(k) => Err(MissingUserType(specs[k].name))
      case None =>
        if |specs| == 0 then Ok([])
        else if Sum(Weights(specs)) == 0 then Err(ZeroTotalWeight)
        else Ok(WithCounts(specs, Distribute(Weights(specs), ext.budget)))
  }

  /** Allocation succeeds exactly when the budget covers every descriptor, each has a user type and the weights do not cancel out. */
  lemma AllocateSucceeds(ext: Extracted)
    ensures Allocate(ext).Ok? <==>
              |ext.specs| <= ext.budget
              && (forall k :: 0 <= k < |ext.specs| ==> ext.specs[k].user.Some?)
              && (|ext.specs| == 0 || Sum(Weights(ext.specs)) != 0)
  {
  }

  /**
   * Which check fails first: the budget, then the first descriptor in
   * insertion order without a user type, then the zero total weight.
   */
  lemma AllocateErrors(ext: Extracted)
    requires Allocate(ext).Err?
    ensures var e := Allocate(ext).error;
            && (e.InsufficientUsers? <==> |ext.specs| > ext.budget)
            && (e.InsufficientUsers? ==> e.needed == |ext.specs|)
            && (e.MissingUserType? ==>
                  exists k :: 0 <= k < |ext.specs| && ext.specs[k].user.None? && ext.specs[k].name == e.name
                              && forall j :: 0 <= j < k ==> ext.specs[j].user.Some?)
            && (e.ZeroTotalWeight? ==>
                  0 < |ext.specs| <= ext.budget && Sum(Weights(ext.specs)) == 0
                  && forall k :: 0 <= k < |ext.specs| ==> ext.specs[k].user.Some?)
            && (e.MissingUserType? || e.InsufficientUsers? || e.ZeroTotalWeight?)
  {
    var specs := ext.specs;
    if |specs| <= ext.budget {
      match FirstWhere(specs, NoUser)
      case Some(k) =>
        assert NoUser(specs[k]);
      case None =>
    }
  }

  /**
   * The allocated user counts add up to the budget, and no descriptor gets
   * more than its rounded-up share `ceil(budget * weight / total)`.
   */
  lemma AllocateTotal(ext: Extracted)
    requires Allocate(ext).Ok? && |ext.specs| > 0
    ensures Sum(Counts(Allocate(ext).value)) == ext.budget
    ensures forall k :: 0 <= k < |ext.specs| ==>
              Allocate(ext).value[k].userCount <= CeilDiv(ext.budget * ext.specs[k].weight, Sum(Weights(ext.specs)))
  {
    var w := Weights(ext.specs);
    var plan := Allocate(ext).value;
    DistributeTotal(w, ext.budget);
    assert Counts(plan) == Distribute(w, ext.budget);
  }

  /** With positive weights every descriptor gets at least one user. */
  lemma AllocatePositive(ext: Extracted)
    requires Allocate(ext).Ok?
    requires forall k :: 0 <= k < |ext.specs| ==> ext.specs[k].weight > 0
    ensures forall k :: 0 <= k < |ext.specs| ==> Allocate(ext).value[k].userCount >= 1
  {
    if |ext.specs| > 0 {
      DistributePositive(Weights(ext.specs), ext.budget);
    }
  }

  datatype Outcome = Decided(decision: Decision) | Failed(error: PlanError)

  /** What was written, how the call ended, and the descriptors with their user counts. */
  datatype Run = Run(events: seq<Event>, outcome: Outcome, plan: seq<Spec>)

  function Said(lines: seq<string>): (r: seq<Event>)
    ensures |r| == |lines| && forall k :: 0 <= k < |lines| ==> r[k] == Say(lines[k])
  {
    seq(|lines|, k requires 0 <= k < |lines| => Say(lines[k]))
  }

  /** The variables from the environment, then the extraction loop. */
  function Prepare(environ: seq<(string, string)>, scenarios: seq<Scenario>, render: Renderer): Result<Extracted> {
    var vars :- Variables(environ);
    Extract(scenarios, render, vars)
  }

  /**
   * Everything after a successful allocation: print the table, refuse the
   * first descriptor with more users than iterations, then confirm.
   */
  function Finish(lines: seq<string>, plan: seq<Spec>, yes: bool, answers: seq<string>): Run {
    var table := Said(lines);
    match FirstWhere(plan, Short)
    case Some(k) => Run(table, Failed(InsufficientIterations(plan[k].name, plan[k].userCount, plan[k].iterations)), plan)
    case None =>
      if yes then Run(table, Decided(Proceed), plan)
      else
        var gate := AskYesNo(ConfirmQuestion, answers);
        Run(table + gate.events, Decided(gate.decision), plan)
  }

  /**
   * The whole call: `environ` is the process environment, `scenarios` the
   * parsed feature file, `render` the template engine, `yes` the `--yes`
   * flag and `answers` the lines typed at the prompt.
   */
  function DistributionOfUsers(file: string, environ: seq<(string, string)>, scenarios: seq<Scenario>,
                               render: Renderer, yes: bool, answers: seq<string>): (r: Run)
    ensures r.outcome.Decided? ==> |r.events| >= |r.plan| + 9
    ensures yes ==> r.outcome == Decided(Proceed) || r.outcome.Failed?
  {
    match Prepare(environ, scenarios, render)
    case Err(e) => Run([], Failed(e), [])
    case Ok(ext) =>
      match Allocate(ext)
      case Err(e) => Run([], Failed(e), [])
      case Ok(plan) =>
        FinishOutput(Lines(file, plan), plan, yes, answers);
        Finish(Lines(file, plan), plan, yes, answers)
  }

  lemma {:induction false} SaidPrompts(lines: seq<string>)
    ensures Prompts(Said(lines)) == 0
    decreases |lines|
  {
    if |lines| > 0 {
      SaidPrompts(lines[1..]);
      assert Said(lines)[1..] == Said(lines[1..]);
    }
  }

  /**
   * After the allocation the output starts with the summary table, and
   * only the prompt can follow it; the only failure left is the first
   * descriptor with more users than iterations.
   */
  lemma FinishOutput(lines: seq<string>, plan: seq<Spec>, yes: bool, answers: seq<string>)
    ensures var r := Finish(lines, plan, yes, answers);
            var table := Said(lines);
            && r.plan == plan
            && |r.events| >= |table| && r.events[..|table|] == table
            && (yes || r.outcome.Failed? ==> r.events == table)
            && (r.outcome.Failed? ==>
                  var e := r.outcome.error;
                  e.InsufficientIterations?
                  && exists k :: 0 <= k < |plan| && plan[k].name == e.name
                                 && plan[k].userCount == e.users && plan[k].iterations == e.iterations
                                 && e.iterations < e.users
                                 && forall j :: 0 <= j < k ==> plan[j].userCount <= plan[j].iterations)
  {
    var table := Said(lines);
    var gate := AskYesNo(ConfirmQuestion, answers);
    assert (table + gate.events)[..|table|] == table;
    match FirstWhere(plan, Short)
    case Some(k) =>
      assert Short(plan[k]);
    case None =>
  }

  /**
   * After the allocation the run proceeds exactly when no descriptor has
   * more users than iterations and either `--yes` was given or the first
   * `y`/`n` answer is not a lower-case `n`; it cancels exactly on a
   * lower-case `n`, and `--yes` never prompts.
   */
  lemma FinishDecides(lines: seq<string>, plan: seq<Spec>, yes: bool, answers: seq<string>)
    ensures var r := Finish(lines, plan, yes, answers);
            var first := FirstAnswered(answers);
            var fit := forall k :: 0 <= k < |plan| ==> plan[k].userCount <= plan[k].iterations;
            && (r.outcome == Decided(Proceed) <==> fit && (yes || (first.Some? && Strip(answers[first.value]) != "n")))
            && (r.outcome == Decided(Cancel) <==> fit && !yes && first.Some? && Strip(answers[first.value]) == "n")
            && (r.outcome == Decided(InputExhausted) <==> fit && !yes && first.None?)
            && (yes ==> Prompts(r.events) == 0)
  {
    AskYesNoDecides(ConfirmQuestion, answers);
    SaidPrompts(lines);
  }

  /** Proceeding after the allocation means that no descriptor has more users than iterations. */
  lemma FinishFits(lines: seq<string>, plan: seq<Spec>, yes: bool, answers: seq<string>)
    ensures var r := Finish(lines, plan, yes, answers);
            r.plan == plan
            && (r.outcome == Decided(Proceed) ==> forall k :: 0 <= k < |plan| ==> plan[k].userCount <= plan[k].iterations)
  {
    match FirstWhere(plan, Short)
    case Some(k) =>
    case None =>
  }

  /**
   * Nothing is printed before the allocation succeeds: a failure to read
   * the variables, to extract or to allocate ends the call silently with
   * that error. After a successful allocation the plan is the allocation's,
   * the output starts with the summary table, and the only failure left is
   * a descriptor with more users than iterations.
   */
  lemma PlanStages(file: string, environ: seq<(string, string)>, scenarios: seq<Scenario>,
                   render: Renderer, yes: bool, answers: seq<string>)
    ensures var r := DistributionOfUsers(file, environ, scenarios, render, yes, answers);
            var prep := Prepare(environ, scenarios, render);
            && (prep.Err? ==> r.events == [] && r.outcome == Failed(prep.error) && r.plan == [])
            && (prep.Ok? && Allocate(prep.value).Err? ==>
                  r.events == [] && r.outcome == Failed(Allocate(prep.value).error) && r.plan == [])
            && (prep.Ok? && Allocate(prep.value).Ok? ==>
                  var plan := Allocate(prep.value).value;
                  var table := Said(Lines(file, plan));
                  && r.plan == plan
                  && |r.events| >= |table| && r.events[..|table|] == table
                  && (r.outcome.Failed? ==> r.outcome.error.InsufficientIterations?))
  {
    PlanUnfold(file, environ, scenarios, render, yes, answers);
    var prep := Prepare(environ, scenarios, render);
    if prep.Ok? && Allocate(prep.value).Ok? {
      var plan := Allocate(prep.value).value;
      FinishOutput(Lines(file, plan), plan, yes, answers);
    }
  }

  /** The call as its three stages, for the proofs below. */
  lemma PlanUnfold(file: string, environ: seq<(string, string)>, scenarios: seq<Scenario>,
                   render: Renderer, yes: bool, answers: seq<string>)
    ensures var r := DistributionOfUsers(file, environ, scenarios, render, yes, answers);
            var prep := Prepare(environ, scenarios, render);
            if prep.Err? then r == Run([], Failed(prep.error), [])
            else if Allocate(prep.value).Err? then r == Run([], Failed(Allocate(prep.value).error), [])
            else
              var plan := Allocate(prep.value).value;
              r == Finish(Lines(file, plan), plan, yes, answers) && r.plan == plan
  {
  }

  /**
   * A run that proceeds has a sound plan: every user has an iteration to
   * run, and the counts add up to the budget read from the first
   * scenario's background.
   */
  lemma PlanProceeds(file: string, environ: seq<(string, string)>, scenarios: seq<Scenario>,
                     render: Renderer, yes: bool, answers: seq<string>)
    ensures var r := DistributionOfUsers(file, environ, scenarios, render, yes, answers);
            r.outcome == Decided(Proceed) ==>
              && Prepare(environ, scenarios, render).Ok?
              && (forall k :: 0 <= k < |r.plan| ==> r.plan[k].userCount <= r.plan[k].iterations)
              && (|r.plan| > 0 ==> Sum(Counts(r.plan)) == Prepare(environ, scenarios, render).value.budget)
  {
    var r := DistributionOfUsers(file, environ, scenarios, render, yes, answers);
    if r.outcome == Decided(Proceed) {
      PlanUnfold(file, environ, scenarios, render, yes, answers);
      var prep := Prepare(environ, scenarios, render);
      assert prep.Ok? && Allocate(prep.value).Ok?;
      AllocatedProceeds(file, prep.value, yes, answers);
      assert r.plan == Allocate(prep.value).value;
    }
  }

  /** `PlanProceeds` once the allocation has succeeded. */
  lemma AllocatedProceeds(file: string, ext: Extracted, yes: bool, answers: seq<string>)
    requires Allocate(ext).Ok?
    ensures var plan := Allocate(ext).value;
            var r := Finish(Lines(file, plan), plan, yes, answers);
            r.outcome == Decided(Proceed) ==>
              && (forall k :: 0 <= k < |plan| ==> plan[k].userCount <= plan[k].iterations)
              && (|plan| > 0 ==> Sum(Counts(plan)) == ext.budget)
  {
    var plan := Allocate(ext).value;
    FinishFits(Lines(file, plan), plan, yes, answers);
    if |plan| > 0 {
      AllocateTotal(ext);
    }
  }

  /**
   * The descriptors of a run whose allocation succeeded: one per unique
   * scenario name, in order of first appearance.
   */
  lemma PlanKeyed(file: string, environ: seq<(string, string)>, scenarios: seq<Scenario>,
                  render: Renderer, yes: bool, answers: seq<string>)
    ensures var r := DistributionOfUsers(file, environ, scenarios, render, yes, answers);
            var prep := Prepare(environ, scenarios, render);
            prep.Ok? && Allocate(prep.value).Ok? ==>
              && (forall j :: 0 <= j < |scenarios| ==> scenarios[j].name in Names(r.plan))
              && (forall k :: 0 <= k < |r.plan| ==> FirstAppearance(scenarios, r.plan[k]))
              && (forall a, b :: 0 <= a < b < |r.plan| ==> r.plan[a].name != r.plan[b].name)
  {
    match Prepare(environ, scenarios, render)
    case Err(_) =>
    case Ok(ext) =>
      match Allocate(ext)
      case Err(_) =>
      case Ok(plan) =>
        FinishOutput(Lines(file, plan), plan, yes, answers);
        var vars := Variables(environ).value;
        assert ext == Extract(scenarios, render, vars).value;
        ExtractKeyed(scenarios, render, vars);
        KeyedNamesDistinct(scenarios, ext.specs);
        PlanKeepsKeys(scenarios, ext.specs, plan);
  }

  /**
   * Without a `Given "<N>" users` step in the first scenario's background
   * the budget stays 0, so a feature with any scenario is refused for
   * having too few users, before anything is printed.
   */
  lemma NoBudgetRejects(file: string, environ: seq<(string, string)>, scenarios: seq<Scenario>,
                        render: Renderer, yes: bool, answers: seq<string>)
    requires |scenarios| > 0
    requires forall k :: 0 <= k < |scenarios[0].background| ==> MatchUserCount(scenarios[0].background[k]).None?
    ensures var r := DistributionOfUsers(file, environ, scenarios, render, yes, answers);
            Prepare(environ, scenarios, render).Ok? ==>
              r.events == [] && r.outcome.Failed? && r.outcome.error.InsufficientUsers?
  {
    match Prepare(environ, scenarios, render)
    case Err(_) =>
    case Ok(ext) =>
      var vars := Variables(environ).value;
      assert ext == Extract(scenarios, render, vars).value;
      var counts := UserCounts(scenarios[0].background);
      ExtractBudget(scenarios, render, vars);
      BudgetLastWins(counts, render, vars, 0);
      assert LastMatch(counts).None?;
      assert ext.budget == 0;
      ExtractKeyed(scenarios, render, vars);
      assert scenarios[0].name in Names(ext.specs);
      assert Allocate(ext) == Err(InsufficientUsers(|ext.specs|));
  }

  /** Renumbering the users keeps names and positions, so the plan stays keyed by first appearance. */
  lemma PlanKeepsKeys(scenarios: seq<Scenario>, specs: seq<Spec>, plan: seq<Spec>)
    requires Keyed(scenarios, specs)
    requires |plan| == |specs| && forall k :: 0 <= k < |specs| ==> plan[k] == specs[k].(userCount := plan[k].userCount)
    ensures forall j :: 0 <= j < |scenarios| ==> scenarios[j].name in Names(plan)
    ensures forall k :: 0 <= k < |plan| ==> FirstAppearance(scenarios, plan[k])
  {
    assert Names(plan) == Names(specs);
    forall k | 0 <= k < |plan|
      ensures FirstAppearance(scenarios, plan[k])
    {
      assert FirstAppearance(scenarios, specs[k]);
    }
  }
}
