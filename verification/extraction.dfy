/**
 * Scenario descriptor extraction: the loop over the parsed scenarios that
 * builds one `ScenarioProperties` record per unique scenario name and reads
 * the total user budget (grizzly_cli/utils.py, `distribution_of_users_per_scenario`).
 *
 * The Jinja template renderer together with the `float()` applied to its
 * output is a parameter: it maps an expression and the variable bindings to
 * the number the rendered text denotes, or to `None` when rendering or the
 * conversion raises.
 */
module Extraction {
  import opened Errors
  import opened Text
  import opened Numbers
  import opened TypeGuess
  import opened Steps

  type Renderer = (string, Bindings) -> Option<real>

  /** `ScenarioProperties`: the descriptor of one unique scenario name. */
  datatype Spec = Spec(
    name: string,
    index: nat,
    identifier: string,
    user: Option<string>,
    weight: int,
    iterations: int,
    userCount: int)

  /**
   * The record `_pre_populate_scenario` creates: no user type, weight 1,
   * one iteration, no users, and the 1-based index zero-filled to three
   * digits as identifier.
   */
  function NewSpec(name: string, index: nat): Spec {
    Spec(name, index, ZeroPad3(index), None, 1, 1, 0)
  }

  /** Render an expression and read the result as a number. */
  function Render(render: Renderer, vars: Bindings, expr: string): (r: Result<real>)
    ensures r.Err? <==> render(expr, vars).None?
    ensures r.Err? ==> r.error == RenderFailed(expr)
    ensures r.Ok? ==> r.value == render(expr, vars).value
  {
    match render(expr, vars)
    case None => Err(RenderFailed(expr))
    case Some(x) => Ok(x)
  }

  /** The fields a step can change; the others are the record's identity. */
  predicate SameIdentity(a: Spec, b: Spec) {
    a.name == b.name && a.index == b.index && a.identifier == b.identifier && a.userCount == b.userCount
  }

  /**
   * The weight a user-type step sets. An absent or empty weight group
   * leaves the template "1.0" (the `or` falls back on an empty capture as
   * well as a missing one), which renders to 1.0 without involving any
   * variable and truncates to 1; any other expression is rendered and
   * truncated toward zero.
   */
  function StepWeight(weightExpr: Option<string>, render: Renderer, vars: Bindings): (r: Result<int>)
    ensures weightExpr.None? || weightExpr == Some("") ==> r == Ok(1)
    ensures r.Err? ==> weightExpr.Some? && r.error == RenderFailed(weightExpr.value)
    ensures weightExpr.Some? && weightExpr.value != "" ==> (r.Ok? <==> render(weightExpr.value, vars).Some?)
    ensures r.Ok? && weightExpr.Some? && weightExpr.value != "" ==>
              r.value == Truncate(render(weightExpr.value, vars).value)
  {
    if weightExpr.None? || weightExpr == Some("") then Ok(1)
    else
      var w :- Render(render, vars, weightExpr.value);
      Ok(Truncate(w))
  }

  /** The template a step carries renders; a step without one always does. */
  predicate StepRenders(step: Step, render: Renderer, vars: Bindings) {
    match Classify(step.name)
    case SetUser(_, weightExpr) => StepWeight(weightExpr, render, vars).Ok?
    case SetIterations(expr) => render(expr, vars).Some?
    case Ignore => true
  }

  /**
   * One step applied to its scenario's descriptor. The user-type step sets
   * the user type and the weight and nothing else; the iteration step sets
   * the iteration count, rounded half to even, and nothing else; any other
   * step changes nothing. Only a template that does not render fails.
   */
  function ApplyStep(spec: Spec, step: Step, render: Renderer, vars: Bindings): (r: Result<Spec>)
    ensures r.Ok? <==> StepRenders(step, render, vars)
    ensures r.Err? ==> r.error.RenderFailed?
    ensures r.Ok? ==> SameIdentity(spec, r.value)
    ensures Classify(step.name).Ignore? ==> r == Ok(spec)
    ensures r.Ok? ==> UserEffect(spec, step, r.value, render, vars) && IterationEffect(spec, step, r.value, render, vars)
  {
    match Classify(step.name)
    case Ignore => Ok(spec)
    case SetUser(user, weightExpr) =>
      var w :- StepWeight(weightExpr, render, vars);
      Ok(spec.(user := Some(user), weight := w))
    case SetIterations(expr) =>
      var n :- Render(render, vars, expr);
      Ok(spec.(iterations := RoundHalfEven(n)))
  }

  /**
   * A user-type step sets the user type and the weight it names; any other
   * step leaves both as they were.
   */
  predicate UserEffect(spec: Spec, step: Step, next: Spec, render: Renderer, vars: Bindings) {
    match UserSetting(step)
    case None => next.user == spec.user && next.weight == spec.weight
    case Some((user, weightExpr)) => next.user == Some(user) && Ok(next.weight) == StepWeight(weightExpr, render, vars)
  }

  /** An iteration step sets the iteration count; any other step leaves it as it was. */
  predicate IterationEffect(spec: Spec, step: Step, next: Spec, render: Renderer, vars: Bindings) {
    match IterationSetting(step)
    case None => next.iterations == spec.iterations
    case Some(expr) => Ok(next.iterations) == StepIterations(expr, render, vars)
  }

  /**
   * `a user of type "<T>" with weight ""` sets weight 1 whatever the
   * renderer and the bindings: the empty capture falls back to "1.0".
   */
  lemma EmptyWeightIsOne(spec: Spec, keyword: string, user: string, rest: string, render: Renderer, vars: Bindings)
    requires '"' !in user
    ensures ApplyStep(spec, Step(keyword, UserTypeOpen + user + "\" " + WeightOpen + "\"" + rest), render, vars)
            == Ok(spec.(user := Some(user), weight := 1))
  {
    EmptyWeightClassified(user, rest);
  }

  /** Such a step is a user-type step with an empty weight expression. */
  lemma EmptyWeightClassified(user: string, rest: string)
    requires '"' !in user
    ensures Classify(UserTypeOpen + user + "\" " + WeightOpen + "\"" + rest) == SetUser(user, Some(""))
  {
    WeightClassified(user, "", rest);
    var head := UserTypeOpen + user + "\" " + WeightOpen;
    assert head + "" == head;
  }

  /** A user-type step with a weight clause captures the user type and the weight expression. */
  lemma WeightClassified(user: string, expr: string, rest: string)
    requires '"' !in user && '"' !in expr
    ensures Classify(UserTypeOpen + user + "\" " + WeightOpen + expr + "\"" + rest) == SetUser(user, Some(expr))
  {
    var head := UserTypeOpen + user + "\" ";
    var tail := WeightOpen + expr + "\"" + rest;
    Reassociate5(head, WeightOpen, expr, "\"", rest);
    MatchUserTypeOf(user, tail);
    WeightOfOf(expr, rest);
    MatchUserTypeClassified(head + tail);
  }

  lemma Reassociate5<T>(a: seq<T>, b: seq<T>, c: seq<T>, d: seq<T>, e: seq<T>)
    ensures a + b + c + d + e == a + (b + c + d + e)
  {
  }

  /**
   * `a user of type "<T>" with weight "<E>"` with a non-empty E sets the
   * user type T and the rendered E truncated toward zero, and fails,
   * naming E, exactly when E does not render.
   */
  lemma WeightTruncated(spec: Spec, keyword: string, user: string, expr: string, rest: string,
                        render: Renderer, vars: Bindings)
    requires '"' !in user && '"' !in expr && expr != ""
    ensures var r := ApplyStep(spec, Step(keyword, UserTypeOpen + user + "\" " + WeightOpen + expr + "\"" + rest), render, vars);
            && (r.Ok? <==> render(expr, vars).Some?)
            && (r.Ok? ==> r.value == spec.(user := Some(user), weight := Truncate(render(expr, vars).value)))
            && (r.Err? ==> r.error == RenderFailed(expr))
  {
    WeightClassified(user, expr, rest);
  }

  /** A weight of 2.7 is 2 and one of -2.7 is -2: truncation goes toward zero. */
  lemma TruncatedWeightExamples(render: Renderer, vars: Bindings)
    requires render("2.7", vars) == Some(2.7) && render("-2.7", vars) == Some(-2.7)
    ensures StepWeight(Some("2.7"), render, vars) == Ok(2)
    ensures StepWeight(Some("-2.7"), render, vars) == Ok(-2)
  {
  }

  function ApplySteps(spec: Spec, steps: seq<Step>, render: Renderer, vars: Bindings): (r: Result<Spec>)
    ensures r.Ok? ==> SameIdentity(spec, r.value)
    decreases |steps|
  {
    if |steps| == 0 then Ok(spec)
    else
      var next :- ApplyStep(spec, steps[0], render, vars);
      ApplySteps(next, steps[1..], render, vars)
  }

  /** Applying two runs of steps is applying their concatenation. */
  lemma {:induction false} ApplyStepsAppend(spec: Spec, a: seq<Step>, b: seq<Step>, render: Renderer, vars: Bindings)
    ensures ApplySteps(spec, a + b, render, vars) ==
            match ApplySteps(spec, a, render, vars)
            case Err(e) => Err(e)
            case Ok(mid) => ApplySteps(mid, b, render, vars)
    decreases |a|
  {
    if |a| == 0 {
      assert a + b == b;
    } else {
      assert (a + b)[0] == a[0];
      assert (a + b)[1..] == a[1..] + b;
      match ApplyStep(spec, a[0], render, vars)
      case Err(e) =>
      case Ok(next) => ApplyStepsAppend(next, a[1..], b, render, vars);
    }
  }

  /** The quantity expression each background step yields, `None` for a step that does not set the budget. */
  function UserCounts(background: seq<Step>): (r: seq<Option<string>>)
    ensures |r| == |background|
    ensures forall k :: 0 <= k < |background| ==> r[k] == MatchUserCount(background[k])
  {
    seq(|background|, k requires 0 <= k < |background| => MatchUserCount(background[k]))
  }

  /**
   * The user budget read from the background: each step that matches
   * replaces the budget by its rendered quantity rounded half to even.
   */
  function Budget(counts: seq<Option<string>>, render: Renderer, vars: Bindings, current: int): (r: Result<int>)
    ensures (forall k :: 0 <= k < |counts| ==> counts[k].None?) ==> r == Ok(current)
    decreases |counts|
  {
    if |counts| == 0 then Ok(current)
    else
      match counts[0]
      case None => Budget(counts[1..], render, vars, current)
      case Some(expr) =>
        var users :- Render(render, vars, expr);
        Budget(counts[1..], render, vars, RoundHalfEven(users))
  }

  /** Position of the last present entry: the last background step that sets the budget, say. */
  function LastMatch<T>(counts: seq<Option<T>>): (r: Option<nat>)
    ensures r.None? <==> forall k :: 0 <= k < |counts| ==> counts[k].None?
    ensures r.Some? ==> r.value < |counts| && counts[r.value].Some?
    ensures r.Some? ==> forall k :: r.value < k < |counts| ==> counts[k].None?
    decreases |counts|
  {
    if |counts| == 0 then None
    else
      var n := |counts| - 1;
      if counts[n].Some? then Some(n)
      else
        assert forall k :: 0 <= k < n ==> counts[k] == counts[..n][k];
        LastMatch(counts[..n])
  }

  /** Every budget expression of the background renders. */
  predicate BudgetRenders(counts: seq<Option<string>>, render: Renderer, vars: Bindings) {
    forall k :: 0 <= k < |counts| && counts[k].Some? ==> render(counts[k].value, vars).Some?
  }

  /** The budget the last matching step sets, or `current` when no step matches. */
  function LastBudget(counts: seq<Option<string>>, render: Renderer, vars: Bindings, current: int): int
    requires BudgetRenders(counts, render, vars)
  {
    match LastMatch(counts)
    case None => current
    case Some(k) => RoundHalfEven(render(counts[k].value, vars).value)
  }

  lemma LastMatchTail<T>(counts: seq<Option<T>>)
    requires |counts| > 0
    ensures LastMatch(counts) ==
            match LastMatch(counts[1..])
            case Some(k) => Some(k + 1)
            case None => if counts[0].Some? then Some(0) else None
  {
    var rest := counts[1..];
    match LastMatch(rest)
    case Some(k) =>
      assert counts[k + 1] == rest[k];
      LastMatchUnique(counts, k + 1);
    case None =>
      assert forall k :: 1 <= k < |counts| ==> counts[k] == rest[k - 1];
  }

  /** The last match is the matching position with no match after it. */
  lemma LastMatchUnique<T>(counts: seq<Option<T>>, i: nat)
    requires i < |counts| && counts[i].Some?
    requires forall k :: i < k < |counts| ==> counts[k].None?
    ensures LastMatch(counts) == Some(i)
  {
    var r := LastMatch(counts);
    assert r.Some?;
    assert !(r.value > i) && !(r.value < i);
  }

  /**
   * Reading the budget fails exactly when a matching step does not render;
   * otherwise the last matching step decides it, and without any the budget
   * keeps its previous value.
   */
  lemma {:induction false} BudgetLastWins(counts: seq<Option<string>>, render: Renderer, vars: Bindings, current: int)
    ensures Budget(counts, render, vars, current).Ok? <==> BudgetRenders(counts, render, vars)
    ensures BudgetRenders(counts, render, vars) ==>
              Budget(counts, render, vars, current) == Ok(LastBudget(counts, render, vars, current))
    decreases |counts|
  {
    if |counts| > 0 {
      var rest := counts[1..];
      assert forall k :: 1 <= k < |counts| ==> counts[k] == rest[k - 1];
      assert BudgetRenders(counts, render, vars) <==>
             (counts[0].Some? ==> render(counts[0].value, vars).Some?) && BudgetRenders(rest, render, vars);
      LastMatchTail(counts);
      match counts[0]
      case None =>
        BudgetLastWins(rest, render, vars, current);
      case Some(expr) =>
        if render(expr, vars).Some? {
          BudgetLastWins(rest, render, vars, RoundHalfEven(render(expr, vars).value));
        }
    }
  }

  /** The descriptors built so far, in insertion order, and the budget. */
  datatype Extracted = Extracted(specs: seq<Spec>, budget: int)

  function Names(specs: seq<Spec>): (names: seq<string>)
    ensures |names| == |specs|
    ensures forall k :: 0 <= k < |specs| ==> names[k] == specs[k].name
  {
    seq(|specs|, k requires 0 <= k < |specs| => specs[k].name)
  }

  /** Position of the descriptor keyed by `name`. */
  function FindName(specs: seq<Spec>, name: string): (r: Option<nat>)
    ensures r.None? <==> name !in Names(specs)
    ensures r.Some? ==> r.value < |specs| && specs[r.value].name == name
    decreases |specs|
  {
    if |specs| == 0 then None
    else if specs[0].name == name then Some(0)
    else
      match FindName(specs[1..], name)
      case None =>
        assert forall k :: 1 <= k < |specs| ==> specs[k] == specs[1..][k - 1];
        None
      case Some(k) => Some(k + 1)
  }

  /**
   * `_pre_populate_scenario` followed by the dictionary lookup: the
   * descriptors with one keyed by `name` (created with the given index when
   * the name is new, appended last), and that descriptor's position.
   */
  function Slot(specs: seq<Spec>, name: string, index: nat): (r: (seq<Spec>, nat))
    ensures r.1 < |r.0| && r.0[r.1].name == name
    ensures name in Names(specs) ==> r.0 == specs
    ensures name !in Names(specs) ==> r.0 == specs + [NewSpec(name, index)] && r.1 == |specs|
  {
    match FindName(specs, name)
    case Some(k) => (specs, k)
    case None => (specs + [NewSpec(name, index)], |specs|)
  }

  /**
   * One iteration of the extraction loop, for the scenario at 0-based
   * position `index`: reject a scenario without steps, create its
   * descriptor unless the name is already known, read the budget from the
   * background when this is the first scenario, then apply the steps to the
   * descriptor keyed by the scenario's name.
   */
  function ExtractScenario(prev: Extracted, scenario: Scenario, index: nat, render: Renderer, vars: Bindings): (r: Result<Extracted>)
    ensures |scenario.steps| == 0 ==> r == Err(EmptyScenario(scenario.name))
    ensures r.Ok? ==> |r.value.specs| == |prev.specs| + (if scenario.name in Names(prev.specs) then 0 else 1)
    ensures r.Ok? && index > 0 ==> r.value.budget == prev.budget
  {
    if |scenario.steps| == 0 then Err(EmptyScenario(scenario.name))
    else
      var (specs, k) := Slot(prev.specs, scenario.name, index + 1);
      var budget :- if index == 0 then Budget(UserCounts(scenario.background), render, vars, prev.budget) else Ok(prev.budget);
      var spec :- ApplySteps(specs[k], scenario.steps, render, vars);
      Ok(Extracted(specs[k := spec], budget))
  }

  /** The extraction loop over all scenarios, in order; the budget starts at 0. */
  function Extract(scenarios: seq<Scenario>, render: Renderer, vars: Bindings): (r: Result<Extracted>)
    ensures r.Ok? ==> |r.value.specs| <= |scenarios|
    decreases |scenarios|
  {
    if |scenarios| == 0 then Ok(Extracted([], 0))
    else
      var n := |scenarios| - 1;
      var prev :- Extract(scenarios[..n], render, vars);
      ExtractScenario(prev, scenarios[n], n, render, vars)
  }

  /** `spec` is keyed by a name whose first appearance is at 1-based position `spec.index`. */
  predicate FirstAppearance(scenarios: seq<Scenario>, spec: Spec) {
    1 <= spec.index <= |scenarios|
    && scenarios[spec.index - 1].name == spec.name
    && forall j :: 0 <= j < spec.index - 1 ==> scenarios[j].name != spec.name
  }

  /**
   * The shape of the extracted descriptors: one per unique scenario name,
   * in order of first appearance, each with the index of that first
   * appearance, the identifier derived from it and no users yet.
   */
  predicate Keyed(scenarios: seq<Scenario>, specs: seq<Spec>) {
    && (forall j :: 0 <= j < |scenarios| ==> scenarios[j].name in Names(specs))
    && (forall k :: 0 <= k < |specs| ==> FirstAppearance(scenarios, specs[k]))
    && (forall k :: 0 <= k < |specs| ==> specs[k].identifier == ZeroPad3(specs[k].index) && specs[k].userCount == 0)
    && (forall a, b :: 0 <= a < b < |specs| ==> specs[a].index < specs[b].index)
  }

  /** Keyed descriptors have pairwise different names. */
  lemma KeyedNamesDistinct(scenarios: seq<Scenario>, specs: seq<Spec>)
    requires Keyed(scenarios, specs)
    ensures forall a, b :: 0 <= a < b < |specs| ==> specs[a].name != specs[b].name
  {
    forall a, b | 0 <= a < b < |specs|
      ensures specs[a].name != specs[b].name
    {
      assert FirstAppearance(scenarios, specs[a]) && FirstAppearance(scenarios, specs[b]);
      assert specs[a].index < specs[b].index;
    }
  }

  predicate SameIdentities(a: seq<Spec>, b: seq<Spec>) {
    |a| == |b| && forall i :: 0 <= i < |a| ==> SameIdentity(a[i], b[i])
  }

  /** Being keyed depends only on the identity fields. */
  lemma KeyedIdentities(scenarios: seq<Scenario>, a: seq<Spec>, b: seq<Spec>)
    requires Keyed(scenarios, a) && SameIdentities(a, b)
    ensures Keyed(scenarios, b)
  {
    assert Names(b) == Names(a);
    forall k | 0 <= k < |b|
      ensures FirstAppearance(scenarios, b[k])
      ensures b[k].identifier == ZeroPad3(b[k].index) && b[k].userCount == 0
    {
      assert SameIdentity(a[k], b[k]);
      assert FirstAppearance(scenarios, a[k]);
    }
    forall x, y | 0 <= x < y < |b|
      ensures b[x].index < b[y].index
    {
      assert SameIdentity(a[x], b[x]) && SameIdentity(a[y], b[y]);
    }
  }

  lemma KeyedExtend(earlier: seq<Scenario>, sc: Scenario, specs: seq<Spec>)
    requires Keyed(earlier, specs)
    ensures Keyed(earlier + [sc], Slot(specs, sc.name, |earlier| + 1).0)
  {
    KeyedExtendNames(earlier, sc, specs);
    KeyedExtendFirst(earlier, sc, specs);
    KeyedExtendOrder(earlier, sc, specs);
  }

  lemma KeyedExtendNames(earlier: seq<Scenario>, sc: Scenario, specs: seq<Spec>)
    requires forall j :: 0 <= j < |earlier| ==> earlier[j].name in Names(specs)
    ensures var next := Slot(specs, sc.name, |earlier| + 1).0;
            forall j :: 0 <= j < |earlier| + 1 ==> (earlier + [sc])[j].name in Names(next)
  {
    var next := Slot(specs, sc.name, |earlier| + 1).0;
    forall j | 0 <= j < |earlier| + 1
      ensures (earlier + [sc])[j].name in Names(next)
    {
      if j < |earlier| {
        var i :| 0 <= i < |specs| && Names(specs)[i] == earlier[j].name;
        assert Names(next)[i] == earlier[j].name;
      } else {
        var k := Slot(specs, sc.name, |earlier| + 1).1;
        assert Names(next)[k] == sc.name;
      }
    }
  }

  lemma KeyedExtendFirst(earlier: seq<Scenario>, sc: Scenario, specs: seq<Spec>)
    requires forall j :: 0 <= j < |earlier| ==> earlier[j].name in Names(specs)
    requires forall k :: 0 <= k < |specs| ==> FirstAppearance(earlier, specs[k])
    ensures var next := Slot(specs, sc.name, |earlier| + 1).0;
            forall k :: 0 <= k < |next| ==> FirstAppearance(earlier + [sc], next[k])
  {
    var scenarios := earlier + [sc];
    var next := Slot(specs, sc.name, |earlier| + 1).0;
    forall i | 0 <= i < |next|
      ensures FirstAppearance(scenarios, next[i])
    {
      if i < |specs| {
        assert FirstAppearance(earlier, specs[i]);
        assert forall j :: 0 <= j < |earlier| ==> scenarios[j] == earlier[j];
      } else {
        forall j | 0 <= j < |earlier|
          ensures scenarios[j].name != sc.name
        {
          assert scenarios[j] == earlier[j];
          assert earlier[j].name in Names(specs);
        }
      }
    }
  }

  lemma KeyedExtendOrder(earlier: seq<Scenario>, sc: Scenario, specs: seq<Spec>)
    requires forall k :: 0 <= k < |specs| ==> FirstAppearance(earlier, specs[k])
    requires forall k :: 0 <= k < |specs| ==> specs[k].identifier == ZeroPad3(specs[k].index) && specs[k].userCount == 0
    requires forall a, b :: 0 <= a < b < |specs| ==> specs[a].index < specs[b].index
    ensures var next := Slot(specs, sc.name, |earlier| + 1).0;
            && (forall k :: 0 <= k < |next| ==> next[k].identifier == ZeroPad3(next[k].index) && next[k].userCount == 0)
            && (forall a, b :: 0 <= a < b < |next| ==> next[a].index < next[b].index)
  {
    if sc.name !in Names(specs) {
      var next := specs + [NewSpec(sc.name, |earlier| + 1)];
      forall a, b | 0 <= a < b < |next|
        ensures next[a].index < next[b].index
      {
        assert next[a] == specs[a];
        if b == |specs| {
          assert FirstAppearance(earlier, specs[a]);
        } else {
          assert next[b] == specs[b];
        }
      }
      forall k | 0 <= k < |next|
        ensures next[k].identifier == ZeroPad3(next[k].index) && next[k].userCount == 0
      {
        if k < |specs| {
          assert next[k] == specs[k];
        }
      }
    }
  }

  lemma SplitLast<T>(s: seq<T>)
    requires |s| > 0
    ensures s == s[..|s| - 1] + [s[|s| - 1]]
  {
  }

  /** The descriptors after one more scenario, in terms of those before it. */
  lemma ExtractScenarioShape(prev: Extracted, sc: Scenario, index: nat, render: Renderer, vars: Bindings)
    requires ExtractScenario(prev, sc, index, render, vars).Ok?
    ensures |sc.steps| > 0
    ensures var (specs, k) := Slot(prev.specs, sc.name, index + 1);
            var next := ExtractScenario(prev, sc, index, render, vars).value.specs;
            ApplySteps(specs[k], sc.steps, render, vars) == Ok(next[k])
            && next == specs[k := next[k]]
            && SameIdentities(specs, next)
  {
  }

  /** Extraction succeeds only if every scenario has steps. */
  lemma {:induction false} ExtractNonEmpty(scenarios: seq<Scenario>, render: Renderer, vars: Bindings)
    requires Extract(scenarios, render, vars).Ok?
    ensures forall j :: 0 <= j < |scenarios| ==> |scenarios[j].steps| > 0
    decreases |scenarios|
  {
    if |scenarios| > 0 {
      var n := |scenarios| - 1;
      var earlier := scenarios[..n];
      ExtractNonEmpty(earlier, render, vars);
      ExtractScenarioShape(Extract(earlier, render, vars).value, scenarios[n], n, render, vars);
      SplitLast(scenarios);
    }
  }

  /** The extracted descriptors are keyed by the scenario names. */
  lemma {:induction false} ExtractKeyed(scenarios: seq<Scenario>, render: Renderer, vars: Bindings)
    requires Extract(scenarios, render, vars).Ok?
    ensures Keyed(scenarios, Extract(scenarios, render, vars).value.specs)
    decreases |scenarios|
  {
    if |scenarios| > 0 {
      var n := |scenarios| - 1;
      var earlier := scenarios[..n];
      ExtractKeyed(earlier, render, vars);
      var prev := Extract(earlier, render, vars).value;
      assert Extract(scenarios, render, vars) == ExtractScenario(prev, scenarios[n], n, render, vars);
      SplitLast(scenarios);
      KeyedStep(earlier, scenarios[n], prev, render, vars);
    }
  }

  /** One more scenario keeps the descriptors keyed. */
  lemma KeyedStep(earlier: seq<Scenario>, sc: Scenario, prev: Extracted, render: Renderer, vars: Bindings)
    requires Keyed(earlier, prev.specs)
    requires ExtractScenario(prev, sc, |earlier|, render, vars).Ok?
    ensures Keyed(earlier + [sc], ExtractScenario(prev, sc, |earlier|, render, vars).value.specs)
  {
    ExtractScenarioShape(prev, sc, |earlier|, render, vars);
    KeyedExtend(earlier, sc, prev.specs);
    KeyedIdentities(earlier + [sc], Slot(prev.specs, sc.name, |earlier| + 1).0,
                    ExtractScenario(prev, sc, |earlier|, render, vars).value.specs);
  }

  /** An `EmptyScenario` error names a scenario that has no steps. */
  lemma {:induction false} ExtractEmptyScenario(scenarios: seq<Scenario>, render: Renderer, vars: Bindings, name: string)
    requires Extract(scenarios, render, vars) == Err(EmptyScenario(name))
    ensures exists j :: 0 <= j < |scenarios| && scenarios[j].name == name && |scenarios[j].steps| == 0
    decreases |scenarios|
  {
    var n := |scenarios| - 1;
    var earlier := scenarios[..n];
    if Extract(earlier, render, vars).Err? {
      ExtractEmptyScenario(earlier, render, vars, name);
      var j :| 0 <= j < n && earlier[j].name == name && |earlier[j].steps| == 0;
      assert scenarios[j] == earlier[j];
    } else {
      var prev := Extract(earlier, render, vars).value;
      var sc := scenarios[n];
      if |sc.steps| > 0 {
        var (specs, k) := Slot(prev.specs, sc.name, n + 1);
        if n == 0 {
          BudgetErrorIsRender(UserCounts(sc.background), render, vars, prev.budget);
        }
        ApplyStepsErrorIsRender(specs[k], sc.steps, render, vars);
      }
    }
  }

  lemma {:induction false} BudgetErrorIsRender(counts: seq<Option<string>>, render: Renderer, vars: Bindings, current: int)
    ensures Budget(counts, render, vars, current).Err? ==> Budget(counts, render, vars, current).error.RenderFailed?
    decreases |counts|
  {
    if |counts| > 0 {
      match counts[0]
      case None => BudgetErrorIsRender(counts[1..], render, vars, current);
      case Some(expr) =>
        if render(expr, vars).Some? {
          BudgetErrorIsRender(counts[1..], render, vars, RoundHalfEven(render(expr, vars).value));
        }
    }
  }

  lemma {:induction false} ApplyStepsErrorIsRender(spec: Spec, steps: seq<Step>, render: Renderer, vars: Bindings)
    ensures ApplySteps(spec, steps, render, vars).Err? ==> ApplySteps(spec, steps, render, vars).error.RenderFailed?
    decreases |steps|
  {
    if |steps| > 0 {
      match ApplyStep(spec, steps[0], render, vars)
      case Err(e) =>
      case Ok(next) => ApplyStepsErrorIsRender(next, steps[1..], render, vars);
    }
  }

  /** The budget is read from the first scenario's background only, and is 0 without scenarios. */
  lemma {:induction false} ExtractBudget(scenarios: seq<Scenario>, render: Renderer, vars: Bindings)
    requires Extract(scenarios, render, vars).Ok?
    ensures |scenarios| == 0 ==> Extract(scenarios, render, vars).value.budget == 0
    ensures |scenarios| > 0 ==>
              Ok(Extract(scenarios, render, vars).value.budget) == Budget(UserCounts(scenarios[0].background), render, vars, 0)
    decreases |scenarios|
  {
    if |scenarios| > 1 {
      var n := |scenarios| - 1;
      ExtractBudget(scenarios[..n], render, vars);
      assert scenarios[..n][0] == scenarios[0];
    } else if |scenarios| == 1 {
      assert scenarios[..0] == [];
    }
  }

  /** The scenarios with every background after the first one removed. */
  function FirstBackgroundOnly(scenarios: seq<Scenario>): (r: seq<Scenario>)
    ensures |r| == |scenarios|
    ensures |scenarios| > 0 ==> r[0] == scenarios[0]
    ensures forall j :: 0 < j < |scenarios| ==> r[j] == scenarios[j].(background := [])
  {
    seq(|scenarios|, j requires 0 <= j < |scenarios| => if j == 0 then scenarios[j] else scenarios[j].(background := []))
  }

  /** Backgrounds of later scenarios play no part in the extraction. */
  lemma {:induction false} LaterBackgroundsIgnored(scenarios: seq<Scenario>, render: Renderer, vars: Bindings)
    ensures Extract(scenarios, render, vars) == Extract(FirstBackgroundOnly(scenarios), render, vars)
    decreases |scenarios|
  {
    if |scenarios| > 0 {
      var n := |scenarios| - 1;
      var stripped := FirstBackgroundOnly(scenarios);
      assert stripped[..n] == FirstBackgroundOnly(scenarios[..n]);
      LaterBackgroundsIgnored(scenarios[..n], render, vars);
      var prev := Extract(scenarios[..n], render, vars);
      if prev.Ok? && n > 0 {
        BackgroundIgnored(prev.value, scenarios[n], n, render, vars);
      }
    }
  }

  /** Past the first scenario the background is not read. */
  lemma BackgroundIgnored(prev: Extracted, sc: Scenario, index: nat, render: Renderer, vars: Bindings)
    requires index > 0
    ensures ExtractScenario(prev, sc, index, render, vars) == ExtractScenario(prev, sc.(background := []), index, render, vars)
  {
  }

  /** The steps of every scenario named `name`, in scenario order. */
  function StepsNamed(scenarios: seq<Scenario>, name: string): seq<Step>
    decreases |scenarios|
  {
    if |scenarios| == 0 then []
    else
      var n := |scenarios| - 1;
      StepsNamed(scenarios[..n], name) + (if scenarios[n].name == name then scenarios[n].steps else [])
  }

  lemma {:induction false} StepsNamedAbsent(scenarios: seq<Scenario>, name: string)
    requires forall j :: 0 <= j < |scenarios| ==> scenarios[j].name != name
    ensures StepsNamed(scenarios, name) == []
    decreases |scenarios|
  {
    if |scenarios| > 0 {
      var n := |scenarios| - 1;
      assert forall j :: 0 <= j < n ==> scenarios[..n][j] == scenarios[j];
      StepsNamedAbsent(scenarios[..n], name);
    }
  }

  /** Each descriptor is its fresh record with the steps of every scenario of its name applied in order. */
  predicate Merged(scenarios: seq<Scenario>, specs: seq<Spec>, render: Renderer, vars: Bindings) {
    forall i :: 0 <= i < |specs| ==>
      ApplySteps(NewSpec(specs[i].name, specs[i].index), StepsNamed(scenarios, specs[i].name), render, vars) == Ok(specs[i])
  }

  lemma MergedExtend(earlier: seq<Scenario>, sc: Scenario, specs: seq<Spec>, next: seq<Spec>, render: Renderer, vars: Bindings)
    requires Keyed(earlier, specs) && Merged(earlier, specs, render, vars)
    requires var (slots, k) := Slot(specs, sc.name, |earlier| + 1);
             |next| == |slots| && ApplySteps(slots[k], sc.steps, render, vars) == Ok(next[k])
             && next == slots[k := next[k]]
    ensures Merged(earlier + [sc], next, render, vars)
  {
    var scenarios := earlier + [sc];
    var (slots, k) := Slot(specs, sc.name, |earlier| + 1);
    assert scenarios[..|earlier|] == earlier;
    forall i | 0 <= i < |next|
      ensures ApplySteps(NewSpec(next[i].name, next[i].index), StepsNamed(scenarios, next[i].name), render, vars) == Ok(next[i])
    {
      MergedAt(earlier, sc, specs, next, render, vars, i);
    }
  }

  /** The steps named `name` after one more scenario. */
  lemma StepsNamedLast(earlier: seq<Scenario>, sc: Scenario, name: string)
    ensures StepsNamed(earlier + [sc], name) == StepsNamed(earlier, name) + (if sc.name == name then sc.steps else [])
  {
    assert (earlier + [sc])[..|earlier|] == earlier;
  }

  lemma MergedAt(earlier: seq<Scenario>, sc: Scenario, specs: seq<Spec>, next: seq<Spec>, render: Renderer, vars: Bindings, i: nat)
    requires Keyed(earlier, specs) && Merged(earlier, specs, render, vars)
    requires var (slots, k) := Slot(specs, sc.name, |earlier| + 1);
             |next| == |slots| && ApplySteps(slots[k], sc.steps, render, vars) == Ok(next[k])
             && next == slots[k := next[k]]
    requires i < |next|
    ensures ApplySteps(NewSpec(next[i].name, next[i].index), StepsNamed(earlier + [sc], next[i].name), render, vars) == Ok(next[i])
  {
    var k := Slot(specs, sc.name, |earlier| + 1).1;
    var name := next[i].name;
    var before := StepsNamed(earlier, name);
    StepsNamedLast(earlier, sc, name);
    if i == k {
      if sc.name in Names(specs) {
        MergedAtKnown(earlier, sc, specs, next, render, vars);
      } else {
        MergedAtNew(earlier, sc, specs, next, render, vars);
      }
      assert StepsNamed(earlier + [sc], name) == before + sc.steps;
    } else {
      MergedAtOther(earlier, sc, specs, next, render, vars, i);
      assert before + [] == before;
      assert StepsNamed(earlier + [sc], name) == before;
    }
  }

  /** A known name: the new scenario's steps continue those of its earlier scenarios. */
  lemma MergedAtKnown(earlier: seq<Scenario>, sc: Scenario, specs: seq<Spec>, next: seq<Spec>, render: Renderer, vars: Bindings)
    requires Keyed(earlier, specs) && Merged(earlier, specs, render, vars)
    requires sc.name in Names(specs)
    requires var (slots, k) := Slot(specs, sc.name, |earlier| + 1);
             |next| == |slots| && ApplySteps(slots[k], sc.steps, render, vars) == Ok(next[k])
             && next == slots[k := next[k]]
    ensures var k := Slot(specs, sc.name, |earlier| + 1).1;
            sc.name == next[k].name
            && ApplySteps(NewSpec(next[k].name, next[k].index), StepsNamed(earlier, next[k].name) + sc.steps, render, vars) == Ok(next[k])
  {
    var k := Slot(specs, sc.name, |earlier| + 1).1;
    assert SameIdentity(specs[k], next[k]);
    ApplyStepsAppend(NewSpec(sc.name, next[k].index), StepsNamed(earlier, sc.name), sc.steps, render, vars);
  }

  /** A new name: its descriptor is fresh and only the new scenario's steps apply. */
  lemma MergedAtNew(earlier: seq<Scenario>, sc: Scenario, specs: seq<Spec>, next: seq<Spec>, render: Renderer, vars: Bindings)
    requires forall j :: 0 <= j < |earlier| ==> earlier[j].name in Names(specs)
    requires sc.name !in Names(specs)
    requires var (slots, k) := Slot(specs, sc.name, |earlier| + 1);
             |next| == |slots| && ApplySteps(slots[k], sc.steps, render, vars) == Ok(next[k])
             && next == slots[k := next[k]]
    ensures var k := Slot(specs, sc.name, |earlier| + 1).1;
            sc.name == next[k].name
            && ApplySteps(NewSpec(next[k].name, next[k].index), StepsNamed(earlier, next[k].name) + sc.steps, render, vars) == Ok(next[k])
  {
    var k := Slot(specs, sc.name, |earlier| + 1).1;
    assert SameIdentity(NewSpec(sc.name, |earlier| + 1), next[k]);
    forall j | 0 <= j < |earlier|
      ensures earlier[j].name != sc.name
    {
      assert earlier[j].name in Names(specs);
    }
    StepsNamedAbsent(earlier, sc.name);
    assert [] + sc.steps == sc.steps;
  }

  /** Every other descriptor keeps its steps. */
  lemma MergedAtOther(earlier: seq<Scenario>, sc: Scenario, specs: seq<Spec>, next: seq<Spec>, render: Renderer, vars: Bindings, i: nat)
    requires Keyed(earlier, specs) && Merged(earlier, specs, render, vars)
    requires var (slots, k) := Slot(specs, sc.name, |earlier| + 1);
             |next| == |slots| && ApplySteps(slots[k], sc.steps, render, vars) == Ok(next[k])
             && next == slots[k := next[k]]
             && i < |next| && i != k
    ensures sc.name != next[i].name
    ensures ApplySteps(NewSpec(next[i].name, next[i].index), StepsNamed(earlier, next[i].name), render, vars) == Ok(next[i])
  {
    var k := Slot(specs, sc.name, |earlier| + 1).1;
    assert i < |specs|;
    assert next[i] == specs[i];
    KeyedNamesDistinct(earlier, specs);
    if sc.name in Names(specs) {
      assert specs[k].name == sc.name;
    }
  }

  /**
   * A repeated scenario name merges into one descriptor: it is the fresh
   * descriptor of the first appearance with the steps of every scenario of
   * that name applied in order.
   */
  lemma {:induction false} ExtractMerges(scenarios: seq<Scenario>, render: Renderer, vars: Bindings)
    requires Extract(scenarios, render, vars).Ok?
    ensures Merged(scenarios, Extract(scenarios, render, vars).value.specs, render, vars)
    decreases |scenarios|
  {
    if |scenarios| > 0 {
      var n := |scenarios| - 1;
      var earlier := scenarios[..n];
      var prev := Extract(earlier, render, vars).value;
      assert Extract(scenarios, render, vars) == ExtractScenario(prev, scenarios[n], n, render, vars);
      var next := Extract(scenarios, render, vars).value.specs;
      ExtractMerges(earlier, render, vars);
      ExtractKeyed(earlier, render, vars);
      ExtractScenarioShape(prev, scenarios[n], n, render, vars);
      MergedExtend(earlier, scenarios[n], prev.specs, next, render, vars);
      SplitLast(scenarios);
    }
  }

  /** The user type and weight expression a step sets, if it is a user-type step. */
  function UserSetting(step: Step): Option<(string, Option<string>)> {
    match Classify(step.name)
    case SetUser(user, weightExpr) => Some((user, weightExpr))
    case _ => None
  }

  /** The iteration expression a step sets, if it is an iteration step. */
  function IterationSetting(step: Step): Option<string> {
    match Classify(step.name)
    case SetIterations(expr) => Some(expr)
    case _ => None
  }

  predicate SetsUser(step: Step) {
    UserSetting(step).Some?
  }

  predicate SetsIterations(step: Step) {
    IterationSetting(step).Some?
  }

  /** Position of the last element satisfying `p`. */
  function LastWhere<T>(s: seq<T>, p: T -> bool): (r: Option<nat>)
    ensures r.None? <==> forall k :: 0 <= k < |s| ==> !p(s[k])
    ensures r.Some? ==> r.value < |s| && p(s[r.value]) && forall k :: r.value < k < |s| ==> !p(s[k])
    decreases |s|
  {
    if |s| == 0 then None
    else
      assert forall k :: 1 <= k < |s| ==> s[k] == s[1..][k - 1];
      match LastWhere(s[1..], p)
      case Some(k) => Some(k + 1)
      case None => if p(s[0]) then Some(0) else None
  }

  /** Every template among the steps renders. */
  predicate StepsRender(steps: seq<Step>, render: Renderer, vars: Bindings) {
    forall k :: 0 <= k < |steps| ==> StepRenders(steps[k], render, vars)
  }

  /**
   * `r` is `start` after `steps`: the last user-type step decides the user
   * type and the weight, the last iteration step decides the iteration
   * count, and a field no step sets keeps its value.
   */
  predicate StepsDecide(start: Spec, steps: seq<Step>, r: Spec, render: Renderer, vars: Bindings) {
    SameIdentity(start, r) && UserDecided(start, steps, r, render, vars) && IterationsDecided(start, steps, r, render, vars)
  }

  predicate UserDecided(start: Spec, steps: seq<Step>, r: Spec, render: Renderer, vars: Bindings) {
    match LastWhere(steps, SetsUser)
    case None => r.user == start.user && r.weight == start.weight
    case Some(k) =>
      && UserSetting(steps[k]).Some?
      && r.user == Some(UserSetting(steps[k]).value.0)
      && Ok(r.weight) == StepWeight(UserSetting(steps[k]).value.1, render, vars)
  }

  predicate IterationsDecided(start: Spec, steps: seq<Step>, r: Spec, render: Renderer, vars: Bindings) {
    match LastWhere(steps, SetsIterations)
    case None => r.iterations == start.iterations
    case Some(k) =>
      && IterationSetting(steps[k]).Some?
      && Ok(r.iterations) == StepIterations(IterationSetting(steps[k]).value, render, vars)
  }

  /** The iteration count an iteration step sets. */
  function StepIterations(expr: string, render: Renderer, vars: Bindings): (r: Result<int>)
    ensures r.Err? <==> render(expr, vars).None?
  {
    var n :- Render(render, vars, expr);
    Ok(RoundHalfEven(n))
  }

  /**
   * Applying steps fails exactly when one of their templates does not
   * render; otherwise the last step of each kind decides its fields.
   */
  lemma {:induction false} ApplyStepsLastWins(spec: Spec, steps: seq<Step>, render: Renderer, vars: Bindings)
    ensures ApplySteps(spec, steps, render, vars).Ok? <==> StepsRender(steps, render, vars)
    ensures ApplySteps(spec, steps, render, vars).Ok? ==>
              StepsDecide(spec, steps, ApplySteps(spec, steps, render, vars).value, render, vars)
    decreases |steps|
  {
    if |steps| > 0 {
      var rest := steps[1..];
      assert forall k :: 1 <= k < |steps| ==> steps[k] == rest[k - 1];
      assert StepsRender(steps, render, vars) <==>
             StepRenders(steps[0], render, vars) && StepsRender(rest, render, vars);
      match ApplyStep(spec, steps[0], render, vars)
      case Err(_) =>
      case Ok(next) =>
        ApplyStepsLastWins(next, rest, render, vars);
        if ApplySteps(next, rest, render, vars).Ok? {
          var r := ApplySteps(next, rest, render, vars).value;
          UserDecidedCons(spec, next, steps, r, render, vars);
          IterationsDecidedCons(spec, next, steps, r, render, vars);
        }
    }
  }

  /** A user-type step in front is overridden by any later one. */
  lemma UserDecidedCons(spec: Spec, next: Spec, steps: seq<Step>, r: Spec, render: Renderer, vars: Bindings)
    requires |steps| > 0 && UserEffect(spec, steps[0], next, render, vars)
    requires UserDecided(next, steps[1..], r, render, vars)
    ensures UserDecided(spec, steps, r, render, vars)
  {
    match LastWhere(steps[1..], SetsUser)
    case Some(k) =>
      assert steps[k + 1] == steps[1..][k];
    case None =>
  }

  /** An iteration step in front is overridden by any later one. */
  lemma IterationsDecidedCons(spec: Spec, next: Spec, steps: seq<Step>, r: Spec, render: Renderer, vars: Bindings)
    requires |steps| > 0 && IterationEffect(spec, steps[0], next, render, vars)
    requires IterationsDecided(next, steps[1..], r, render, vars)
    ensures IterationsDecided(spec, steps, r, render, vars)
  {
    match LastWhere(steps[1..], SetsIterations)
    case Some(k) =>
      assert steps[k + 1] == steps[1..][k];
    case None =>
  }

  /**
   * Each extracted descriptor is decided by the steps of every scenario of
   * its name, in order: the last user-type step among them gives its user
   * type and weight (none and 1 without one), the last iteration step its
   * iteration count (1 without one).
   */
  lemma ExtractStepsDecide(scenarios: seq<Scenario>, render: Renderer, vars: Bindings, i: nat)
    requires Extract(scenarios, render, vars).Ok?
    requires i < |Extract(scenarios, render, vars).value.specs|
    ensures var spec := Extract(scenarios, render, vars).value.specs[i];
            StepsDecide(NewSpec(spec.name, spec.index), StepsNamed(scenarios, spec.name), spec, render, vars)
  {
    ExtractMerges(scenarios, render, vars);
    var spec := Extract(scenarios, render, vars).value.specs[i];
    ApplyStepsLastWins(NewSpec(spec.name, spec.index), StepsNamed(scenarios, spec.name), render, vars);
  }
}
