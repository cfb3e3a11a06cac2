/**
 * Scenarios and steps as the feature-file parser hands them over, and the
 * three step patterns the planner recognises (grizzly_cli/utils.py,
 * `distribution_of_users_per_scenario`):
 *
 *   background  `"<expr>" user(s)`             the total user budget
 *   step        `a user of type "<T>" ...`      user type and weight
 *   step        `repeat for "<expr>" iteration` iteration count
 *
 * Each regular expression is anchored at the start of the step text
 * (`re.match`), so a match only constrains a prefix of the text.
 */
module Steps {
  import opened Errors
  import opened Text

  /** One behavioural line of a scenario. */
  datatype Step = Step(keyword: string, name: string)

  /** A parsed scenario; `background` is empty when it has none. */
  datatype Scenario = Scenario(name: string, steps: seq<Step>, background: seq<Step>)

  /** What a step contributes to its scenario's descriptor. */
  datatype StepAction =
    | SetUser(user: string, weightExpr: Option<string>)
    | SetIterations(iterationsExpr: string)
    | Ignore

  const UserTypePrefix: string := "a user of type"
  const UserTypeOpen: string := "a user of type \""
  const WeightOpen: string := "with weight \""
  const RepeatPrefix: string := "repeat for"
  const RepeatOpen: string := "repeat for \""
  const IterationWord: string := " iteration"

  /** `[^"]*"`: the text up to the first quote, and the text after it. */
  function SplitAtQuote(s: string): (r: Option<(string, string)>)
    ensures r.None? <==> '"' !in s
    ensures r.Some? ==> '"' !in r.value.0 && s == r.value.0 + "\"" + r.value.1
  {
    match FirstIndexOf(s, '"')
    case None => None
    case Some(q) =>
      assert s == s[..q] + "\"" + s[q + 1..];
      Some((s[..q], s[q + 1..]))
  }

  lemma SplitAtQuoteOf(a: string, b: string)
    requires '"' !in a
    ensures SplitAtQuote(a + "\"" + b) == Some((a, b))
  {
    var s := a + "\"" + b;
    assert s[|a|] == '"';
    assert s[..|a|] == a;
    FirstIndexOfUnique(s, '"', |a|);
    assert s[|a| + 1..] == b;
  }

  /**
   * The optional `(with weight "([^"]*)")?` group of the user-type pattern,
   * applied to the text after the user type's closing quote and space.
   */
  function WeightOf(tail: string): Option<string> {
    if StartsWith(tail, WeightOpen) then
      match SplitAtQuote(tail[|WeightOpen|..])
      case Some((expr, _)) => Some(expr)
      case None => None
    else None
  }

  /** `a user of type "([^"]*)" (with weight "([^"]*)")?.*` applied with `re.match`. */
  function MatchUserType(name: string): (r: Option<(string, Option<string>)>)
    ensures r.Some? ==> StartsWith(name, UserTypeOpen) && '"' !in r.value.0
    ensures r.Some? && r.value.1.Some? ==> '"' !in r.value.1.value
  {
    if !StartsWith(name, UserTypeOpen) then None
    else
      match SplitAtQuote(name[|UserTypeOpen|..])
      case None => None
      case Some((user, after)) =>
        if StartsWith(after, " ") then Some((user, WeightOf(after[1..]))) else None
  }

  /** The user-type pattern matches exactly the texts `a user of type "<T>" <rest>` with a quote-free `T`. */
  lemma MatchUserTypeOf(user: string, rest: string)
    requires '"' !in user
    ensures MatchUserType(UserTypeOpen + user + "\" " + rest) == Some((user, WeightOf(rest)))
  {
    var name := UserTypeOpen + user + "\" " + rest;
    assert name[..|UserTypeOpen|] == UserTypeOpen;
    assert name[|UserTypeOpen|..] == user + "\"" + (" " + rest);
    SplitAtQuoteOf(user, " " + rest);
    assert (" " + rest)[..1] == " ";
    assert (" " + rest)[1..] == rest;
  }

  lemma MatchUserTypeShape(name: string)
    requires MatchUserType(name).Some?
    ensures var (user, weight) := MatchUserType(name).value;
            '"' !in user
            && name == UserTypeOpen + user + "\" " + name[|UserTypeOpen| + |user| + 2..]
            && weight == WeightOf(name[|UserTypeOpen| + |user| + 2..])
  {
    var tail := name[|UserTypeOpen|..];
    var (user, after) := SplitAtQuote(tail).value;
    var rest := after[1..];
    Rejoin(name, |UserTypeOpen|);
    assert name == UserTypeOpen + tail;
    Rejoin(after, 1);
    assert after == " " + rest;
    assert tail == user + "\"" + after;
    Reassociate(UserTypeOpen, user, "\"", " ", rest);
    assert "\"" + " " == "\" ";
    Associate(UserTypeOpen + user, "\"", " ");
    DropPrefix(UserTypeOpen + user + "\" ", rest);
  }

  /** The weight group captures the expression up to its closing quote. */
  lemma WeightOfOf(expr: string, rest: string)
    requires '"' !in expr
    ensures WeightOf(WeightOpen + expr + "\"" + rest) == Some(expr)
  {
    var tail := WeightOpen + expr + "\"" + rest;
    assert tail[..|WeightOpen|] == WeightOpen;
    assert tail[|WeightOpen|..] == expr + "\"" + rest;
    SplitAtQuoteOf(expr, rest);
  }

  /** `repeat for "([^"]*)" iteration[s]?` applied with `re.match`. */
  function MatchRepeat(name: string): (r: Option<string>)
    ensures r.Some? ==> StartsWith(name, RepeatOpen) && '"' !in r.value
  {
    if !StartsWith(name, RepeatOpen) then None
    else
      match SplitAtQuote(name[|RepeatOpen|..])
      case None => None
      case Some((expr, after)) => if StartsWith(after, IterationWord) then Some(expr) else None
  }

  /** The iteration pattern matches exactly `repeat for "<N>" iteration<rest>` with a quote-free `N`. */
  lemma MatchRepeatOf(expr: string, rest: string)
    requires '"' !in expr
    ensures MatchRepeat(RepeatOpen + expr + "\"" + IterationWord + rest) == Some(expr)
  {
    var name := RepeatOpen + expr + "\"" + IterationWord + rest;
    assert name[..|RepeatOpen|] == RepeatOpen;
    assert name[|RepeatOpen|..] == expr + "\"" + (IterationWord + rest);
    SplitAtQuoteOf(expr, IterationWord + rest);
    assert (IterationWord + rest)[..|IterationWord|] == IterationWord;
  }

  lemma MatchRepeatShape(name: string)
    requires MatchRepeat(name).Some?
    ensures var expr := MatchRepeat(name).value;
            '"' !in expr
            && name == RepeatOpen + expr + "\"" + IterationWord + name[|RepeatOpen| + |expr| + 1 + |IterationWord|..]
  {
    var tail := name[|RepeatOpen|..];
    var (expr, after) := SplitAtQuote(tail).value;
    var rest := after[|IterationWord|..];
    Rejoin(name, |RepeatOpen|);
    assert name == RepeatOpen + tail;
    Rejoin(after, |IterationWord|);
    assert after == IterationWord + rest;
    assert tail == expr + "\"" + after;
    Reassociate(RepeatOpen, expr, "\"", IterationWord, rest);
    DropPrefix(RepeatOpen + expr + "\"" + IterationWord, rest);
  }

  lemma Reassociate<T>(a: seq<T>, b: seq<T>, c: seq<T>, d: seq<T>, e: seq<T>)
    ensures a + (b + c + (d + e)) == a + b + c + d + e
    ensures |a + b + c + d| == |a| + |b| + |c| + |d|
  {
  }

  lemma Rejoin<T>(s: seq<T>, n: nat)
    requires n <= |s|
    ensures s == s[..n] + s[n..]
  {
  }

  lemma Associate<T>(a: seq<T>, b: seq<T>, c: seq<T>)
    ensures a + (b + c) == a + b + c
  {
  }

  lemma Reassociate4<T>(a: seq<T>, b: seq<T>, c: seq<T>, d: seq<T>)
    ensures a + b + c + d == a + (b + c + d)
  {
  }

  lemma KeepPrefix<T>(p: seq<T>, r: seq<T>)
    ensures (p + r)[..|p|] == p
  {
  }

  lemma DropPrefix<T>(p: seq<T>, r: seq<T>)
    ensures (p + r)[|p|..] == r
  {
  }

  /**
   * The step dispatch: a text starting with `a user of type` is only ever
   * tried against the user-type pattern, one starting with `repeat for`
   * only against the iteration pattern; a text that starts with one of the
   * prefixes but does not match its pattern is silently ignored.
   */
  function Classify(name: string): (a: StepAction)
    ensures a.SetUser? <==> StartsWith(name, UserTypePrefix) && MatchUserType(name).Some?
    ensures a.SetUser? ==> MatchUserType(name) == Some((a.user, a.weightExpr))
    ensures a.SetIterations? <==>
              !StartsWith(name, UserTypePrefix) && StartsWith(name, RepeatPrefix) && MatchRepeat(name).Some?
    ensures a.SetIterations? ==> MatchRepeat(name) == Some(a.iterationsExpr)
  {
    if StartsWith(name, UserTypePrefix) then
      match MatchUserType(name)
      case Some((user, weight)) => SetUser(user, weight)
      case None => Ignore
    else if StartsWith(name, RepeatPrefix) then
      match MatchRepeat(name)
      case Some(expr) => SetIterations(expr)
      case None => Ignore
    else Ignore
  }

  /** A text the user-type pattern matches is dispatched to it. */
  lemma MatchUserTypeClassified(name: string)
    requires MatchUserType(name).Some?
    ensures Classify(name) == SetUser(MatchUserType(name).value.0, MatchUserType(name).value.1)
  {
    assert UserTypeOpen[..|UserTypePrefix|] == UserTypePrefix;
    assert name[..|UserTypePrefix|] == name[..|UserTypeOpen|][..|UserTypePrefix|];
  }

  /**
   * `"([^"]*)" user(s)?` applied with `re.match` to a background step: the
   * keyword must be `Given` and the text must end in ` user` or ` users`.
   */
  function MatchUserCount(step: Step): (r: Option<string>)
    ensures r.Some? ==> step.keyword == "Given" && StartsWith(step.name, "\"") && '"' !in r.value
  {
    if step.keyword == "Given" && (EndsWith(step.name, " users") || EndsWith(step.name, " user"))
       && StartsWith(step.name, "\"") then
      match SplitAtQuote(step.name[1..])
      case None => None
      case Some((expr, after)) => if StartsWith(after, " user") then Some(expr) else None
    else None
  }

  /** A `Given "<N>" users` background step always yields its quantity expression. */
  lemma MatchUsersOf(expr: string)
    requires '"' !in expr
    ensures MatchUserCount(Step("Given", "\"" + expr + "\" users")) == Some(expr)
  {
    QuoteWords();
    Associate("\"" + expr, "\"", " users");
    QuotedThen(expr, " users");
    assert " users"[..5] == " user";
  }

  /** So does the singular `Given "<N>" user`. */
  lemma MatchUserOf(expr: string)
    requires '"' !in expr
    ensures MatchUserCount(Step("Given", "\"" + expr + "\" user")) == Some(expr)
  {
    QuoteWords();
    Associate("\"" + expr, "\"", " user");
    QuotedThen(expr, " user");
  }

  /** The closing quote joined with the word after it. */
  lemma QuoteWords()
    ensures "\"" + " user" == "\" user" && "\"" + " users" == "\" users"
  {
  }

  /** A quoted expression followed by `word`, taken apart the way `MatchUserCount` does. */
  lemma QuotedThen(expr: string, word: string)
    requires '"' !in expr
    ensures var text := "\"" + expr + "\"" + word;
            StartsWith(text, "\"") && EndsWith(text, word)
            && SplitAtQuote(text[1..]) == Some((expr, word))
  {
    var text := "\"" + expr + "\"" + word;
    var inner := expr + "\"" + word;
    Reassociate4("\"", expr, "\"", word);
    assert text == "\"" + inner;
    KeepPrefix("\"", inner);
    DropPrefix("\"", inner);
    assert text[1..] == inner;
    SplitAtQuoteOf(expr, word);
    DropPrefix("\"" + expr + "\"", word);
  }

  /**
   * Conversely, every background step the budget pattern accepts reads
   * `"<N>" user<rest>` with a quote-free `N`, and ends in ` user` or ` users`.
   */
  lemma MatchUserCountShape(step: Step)
    requires MatchUserCount(step).Some?
    ensures var expr := MatchUserCount(step).value;
            step.keyword == "Given" && '"' !in expr
            && step.name == "\"" + expr + "\" user" + step.name[|expr| + 7..]
            && (EndsWith(step.name, " user") || EndsWith(step.name, " users"))
  {
    var name := step.name;
    var tail := name[1..];
    var (expr, after) := SplitAtQuote(tail).value;
    var rest := after[5..];
    Rejoin(name, 1);
    assert name == "\"" + tail;
    Rejoin(after, 5);
    assert after == " user" + rest;
    assert tail == expr + "\"" + after;
    Reassociate("\"", expr, "\"", " user", rest);
    QuoteWords();
    Associate("\"" + expr, "\"", " user");
    DropPrefix("\"" + expr + "\" user", rest);
  }

  /** Any other keyword, or a text that does not end in ` user(s)`, never sets the budget. */
  lemma MatchUserCountNeedsGiven(step: Step)
    requires step.keyword != "Given" || !(EndsWith(step.name, " users") || EndsWith(step.name, " user"))
    ensures MatchUserCount(step).None?
  {
  }
}
