/**
 * The confirmation prompt `ask_yes_no` (grizzly_cli/utils.py): ask until the
 * answer, stripped and lower-cased, is `y` or `n`. Only an answer that is
 * exactly `n` cancels (the source raises `KeyboardInterrupt`); `y`, `Y` and
 * also `N` end the prompt and let the caller go on.
 *
 * The terminal is modelled by the lines the user would type, in order, and
 * the transcript of what the program writes: prompts (without a newline)
 * and printed lines.
 */
module Gate {
  import opened Errors
  import opened Text

  const Guidance: string := "you must answer y (yes) or n (no)"

  /** The answer the loop starts from; it never prints the guidance line. */
  const Undefined: string := "undefined"

  datatype Event = Prompt(text: string) | Say(line: string)

  datatype Decision =
    | Proceed
    | Cancel
    /** `input()` hit the end of its input: the source raises `EOFError`. */
    | InputExhausted

  /** The decision, what was written, and how many typed lines were read. */
  datatype GateRun = GateRun(decision: Decision, events: seq<Event>, consumed: nat)

  /**
   * The characters `str.isspace()` accepts, which `str.strip()` removes:
   * tab to carriage return, the four separators 0x1C to 0x1F, space, next
   * line, no-break space, and the Unicode space separators and line and
   * paragraph separators.
   */
  predicate IsSpace(c: char) {
    var n := c as int;
    9 <= n <= 13 || 28 <= n <= 32 || n == 0x85 || n == 0xA0 || n == 0x1680
    || 0x2000 <= n <= 0x200A || n == 0x2028 || n == 0x2029 || n == 0x202F || n == 0x205F || n == 0x3000
  }

  /** `str.lstrip()`. */
  function StripStart(s: string): string
    decreases |s|
  {
    if |s| > 0 && IsSpace(s[0]) then StripStart(s[1..]) else s
  }

  /** `str.rstrip()`. */
  function StripEnd(s: string): string
    decreases |s|
  {
    if |s| > 0 && IsSpace(s[|s| - 1]) then StripEnd(s[..|s| - 1]) else s
  }

  /** `get_input` strips what was typed. */
  function Strip(s: string): (r: string)
    ensures |r| <= |s|
  {
    StripStartSpec(s);
    StripEndSpec(StripStart(s));
    StripEnd(StripStart(s))
  }

  /** What `Strip` keeps neither starts nor ends with whitespace. */
  lemma StripTrims(s: string)
    ensures var r := Strip(s);
            |r| > 0 ==> !IsSpace(r[0]) && !IsSpace(r[|r| - 1])
  {
    StripStartSpec(s);
    StripEndSpec(StripStart(s));
  }

  /** Left stripping keeps the longest suffix that does not start with whitespace. */
  lemma {:induction false} StripStartSpec(s: string)
    ensures var r := StripStart(s);
            |r| <= |s| && r == s[|s| - |r|..]
            && (forall i :: 0 <= i < |s| - |r| ==> IsSpace(s[i]))
            && (|r| > 0 ==> !IsSpace(r[0]))
    decreases |s|
  {
    if |s| > 0 && IsSpace(s[0]) {
      StripStartSpec(s[1..]);
      var r := StripStart(s[1..]);
      assert forall i :: 1 <= i < |s| ==> s[i] == s[1..][i - 1];
      assert s[1..][|s| - 1 - |r|..] == s[|s| - |r|..];
    }
  }

  /** Right stripping keeps the longest prefix that does not end with whitespace. */
  lemma {:induction false} StripEndSpec(s: string)
    ensures var r := StripEnd(s);
            |r| <= |s| && r == s[..|r|]
            && (forall i :: |r| <= i < |s| ==> IsSpace(s[i]))
            && (|r| > 0 ==> !IsSpace(r[|r| - 1]))
    decreases |s|
  {
    if |s| > 0 && IsSpace(s[|s| - 1]) {
      StripEndSpec(s[..|s| - 1]);
      var r := StripEnd(s[..|s| - 1]);
      assert forall i :: 0 <= i < |s| - 1 ==> s[i] == s[..|s| - 1][i];
      assert s[..|s| - 1][..|r|] == s[..|r|];
    }
  }

  /** A line without surrounding whitespace is read as typed. */
  lemma StripClean(s: string)
    requires |s| > 0 ==> !IsSpace(s[0]) && !IsSpace(s[|s| - 1])
    ensures Strip(s) == s
  {
  }

  /** Stripping twice is stripping once. */
  lemma StripIdempotent(s: string)
    ensures Strip(Strip(s)) == Strip(s)
  {
    var t := StripStart(s);
    var r := StripEnd(t);
    StripStartSpec(s);
    StripEndSpec(t);
    assert |r| > 0 ==> r[0] == t[0];
    StripClean(r);
  }

  /** The loop condition: the lower-cased answer is `y` or `n`, that is, one letter that lowers to either. */
  predicate Answered(answer: string) {
    |answer| == 1 && (LowerChar(answer[0]) == 'y' || LowerChar(answer[0]) == 'n')
  }

  /** `Answered` is the source's `answer.lower() in ['y', 'n']`. */
  lemma AnsweredLower(answer: string)
    ensures Answered(answer) <==> ToLower(answer) == "y" || ToLower(answer) == "n"
  {
    if ToLower(answer) == "y" || ToLower(answer) == "n" {
      assert ToLower(answer)[0] == LowerChar(answer[0]);
    }
    if Answered(answer) {
      assert ToLower(answer) == [LowerChar(answer[0])];
    }
  }

  /** `n` ends the loop, so an answer that does not is not `n`. */
  lemma AnsweredN()
    ensures Answered("n")
  {
  }

  function PromptText(question: string): string {
    question + " [y/n]: "
  }

  /**
   * One turn of the loop and the turns after it, entered with the previous
   * answer `previous`, which did not end the loop.
   */
  function Ask(question: string, answers: seq<string>, previous: string): (r: GateRun)
    ensures r.consumed <= |answers|
    ensures r.decision == InputExhausted ==> r.consumed == |answers|
    ensures r.decision != InputExhausted ==> 0 < r.consumed
    decreases |answers|
  {
    var turn := Turn(question, previous);
    if |answers| == 0 then GateRun(InputExhausted, turn, 0)
    else
      var answer := Strip(answers[0]);
      if answer == "n" then GateRun(Cancel, turn, 1)
      else if Answered(answer) then GateRun(Proceed, turn, 1)
      else
        var rest := Ask(question, answers[1..], answer);
        GateRun(rest.decision, turn + rest.events, rest.consumed + 1)
  }

  /** `ask_yes_no(question)` reading the typed lines `answers`. */
  function AskYesNo(question: string, answers: seq<string>): (r: GateRun)
    ensures r.consumed <= |answers|
    ensures r.decision == InputExhausted ==> r.consumed == |answers|
    ensures r.decision != InputExhausted ==> 0 < r.consumed && Answered(Strip(answers[r.consumed - 1]))
    ensures r.decision == Cancel ==> 0 < r.consumed && Strip(answers[r.consumed - 1]) == "n"
  {
    AskEnds(question, answers, Undefined);
    Ask(question, answers, Undefined)
  }

  /** The loop ends on the line it read last: an answer, and `n` when it cancels. */
  lemma {:induction false} AskEnds(question: string, answers: seq<string>, previous: string)
    ensures var r := Ask(question, answers, previous);
            (r.decision != InputExhausted ==> Answered(Strip(answers[r.consumed - 1])))
            && (r.decision == Cancel ==> Strip(answers[r.consumed - 1]) == "n")
    decreases |answers|
  {
    AnsweredN();
    if |answers| > 0 && !Answered(Strip(answers[0])) {
      var rest := Ask(question, answers[1..], Strip(answers[0]));
      AskEnds(question, answers[1..], Strip(answers[0]));
      if rest.decision != InputExhausted {
        assert answers[rest.consumed] == answers[1..][rest.consumed - 1];
      }
    }
  }

  /** The position of the first typed line that ends the loop, if any. */
  function FirstAnswered(answers: seq<string>): (r: Option<nat>)
    ensures r.None? <==> forall k :: 0 <= k < |answers| ==> !Answered(Strip(answers[k]))
    ensures r.Some? ==> r.value < |answers| && Answered(Strip(answers[r.value]))
    ensures r.Some? ==> forall k :: 0 <= k < r.value ==> !Answered(Strip(answers[k]))
    decreases |answers|
  {
    if |answers| == 0 then None
    else if Answered(Strip(answers[0])) then Some(0)
    else
      match FirstAnswered(answers[1..])
      case None => None
      case Some(k) => Some(k + 1)
  }

  /**
   * The decision is made by the first answer that is `y` or `n` in any
   * case: it cancels exactly when that answer is a lower-case `n`, and the
   * typed lines after it are never read. Without such an answer the input
   * runs out.
   */
  lemma {:induction false} AskDecides(question: string, answers: seq<string>, previous: string)
    ensures var r := Ask(question, answers, previous);
            match FirstAnswered(answers)
            case Some(k) =>
              r.consumed == k + 1 && r.decision != InputExhausted
              && (r.decision == Cancel <==> Strip(answers[k]) == "n")
            case None =>
              r.consumed == |answers| && r.decision == InputExhausted
    decreases |answers|
  {
    if |answers| > 0 && !Answered(Strip(answers[0])) {
      AskDecides(question, answers[1..], Strip(answers[0]));
      assert forall k :: 1 <= k < |answers| ==> answers[k] == answers[1..][k - 1];
    }
  }

  lemma AskYesNoDecides(question: string, answers: seq<string>)
    ensures var r := AskYesNo(question, answers);
            match FirstAnswered(answers)
            case Some(k) =>
              r.consumed == k + 1 && r.decision != InputExhausted
              && (r.decision == Cancel <==> Strip(answers[k]) == "n")
            case None =>
              r.consumed == |answers| && r.decision == InputExhausted
  {
    AskDecides(question, answers, Undefined);
  }

  function Prompts(events: seq<Event>): nat
    decreases |events|
  {
    if |events| == 0 then 0 else (if events[0].Prompt? then 1 else 0) + Prompts(events[1..])
  }

  function Guidances(events: seq<Event>): nat
    decreases |events|
  {
    if |events| == 0 then 0 else (if events[0] == Say(Guidance) then 1 else 0) + Guidances(events[1..])
  }

  lemma {:induction false} CountsAppend(a: seq<Event>, b: seq<Event>)
    ensures Prompts(a + b) == Prompts(a) + Prompts(b)
    ensures Guidances(a + b) == Guidances(a) + Guidances(b)
    decreases |a|
  {
    if |a| == 0 {
      assert a + b == b;
    } else {
      CountsAppend(a[1..], b);
      assert (a + b)[0] == a[0];
      assert (a + b)[1..] == a[1..] + b;
    }
  }

  /** How many of the first `n` typed lines, stripped, print the guidance when they are rejected. */
  function Complaints(answers: seq<string>, n: nat): nat
    requires n <= |answers|
    decreases n
  {
    if n == 0 then 0 else Complaints(answers, n - 1) + (if Strip(answers[n - 1]) != Undefined then 1 else 0)
  }

  lemma {:induction false} ComplaintsShift(answers: seq<string>, n: nat)
    requires 0 < n <= |answers|
    ensures Complaints(answers, n) ==
            (if Strip(answers[0]) != Undefined then 1 else 0) + Complaints(answers[1..], n - 1)
    decreases n
  {
    if n > 1 {
      ComplaintsShift(answers, n - 1);
      assert answers[1..][n - 2] == answers[n - 1];
    }
  }

  /** The events of one turn: the guidance line unless the previous answer was `undefined`, then the prompt. */
  function Turn(question: string, previous: string): (r: seq<Event>)
    ensures Prompts(r) == 1
    ensures Guidances(r) == if previous != Undefined then 1 else 0
  {
    var prompt := [Prompt(PromptText(question))];
    assert Prompts(prompt) == 1 && Guidances(prompt) == 0;
    if previous != Undefined then
      assert Prompts([Say(Guidance)]) == 0 && Guidances([Say(Guidance)]) == 1;
      CountsAppend([Say(Guidance)], prompt);
      [Say(Guidance)] + prompt
    else prompt
  }

  /** `Ask` as one turn followed by the turns after it. */
  lemma AskTurn(question: string, answers: seq<string>, previous: string)
    ensures var r := Ask(question, answers, previous);
            if |answers| == 0 || Answered(Strip(answers[0])) then r.events == Turn(question, previous)
            else r.events == Turn(question, previous) + Ask(question, answers[1..], Strip(answers[0])).events
  {
    AnsweredN();
  }

  /**
   * The transcript: one prompt per read (and one more when the input runs
   * out), and one guidance line before every re-prompt except after an
   * answer that was literally `undefined`.
   */
  lemma {:induction false} AskTranscript(question: string, answers: seq<string>, previous: string)
    ensures var r := Ask(question, answers, previous);
            var turns := if r.decision == InputExhausted then r.consumed + 1 else r.consumed;
            var first := if previous != Undefined then 1 else 0;
            Prompts(r.events) == turns
            && Guidances(r.events) == first + Complaints(answers, turns - 1)
    decreases |answers|
  {
    var r := Ask(question, answers, previous);
    AskTurn(question, answers, previous);
    AnsweredN();
    if |answers| > 0 && !Answered(Strip(answers[0])) {
      var answer := Strip(answers[0]);
      var rest := Ask(question, answers[1..], answer);
      assert r.events == Turn(question, previous) + rest.events;
      assert r.decision == rest.decision && r.consumed == rest.consumed + 1;
      AskTranscript(question, answers[1..], answer);
      var turns := if rest.decision == InputExhausted then rest.consumed + 1 else rest.consumed;
      GuidancesCons(Turn(question, previous), rest.events, answers, turns);
      assert Guidances(r.events) == (if previous != Undefined then 1 else 0) + Complaints(answers, turns);
    } else {
      assert r.events == Turn(question, previous);
      assert Complaints(answers, 0) == 0;
    }
  }

  /** The count step of `AskTranscript`: one more turn in front of the rest. */
  lemma GuidancesCons(turn: seq<Event>, rest: seq<Event>, answers: seq<string>, turns: nat)
    requires 0 < turns <= |answers|
    requires Guidances(rest) == (if Strip(answers[0]) != Undefined then 1 else 0) + Complaints(answers[1..], turns - 1)
    ensures Prompts(turn + rest) == Prompts(turn) + Prompts(rest)
    ensures Guidances(turn + rest) == Guidances(turn) + Complaints(answers, turns)
  {
    CountsAppend(turn, rest);
    ComplaintsShift(answers, turns);
  }

  lemma AskYesNoTranscript(question: string, answers: seq<string>)
    ensures var r := AskYesNo(question, answers);
            var turns := if r.decision == InputExhausted then r.consumed + 1 else r.consumed;
            Prompts(r.events) == turns && Guidances(r.events) == Complaints(answers, turns - 1)
  {
    AskTranscript(question, answers, Undefined);
  }

  /** An upper-case `N` ends the prompt without cancelling. */
  lemma UpperNProceeds(question: string)
    ensures AskYesNo(question, ["N"]).decision == Proceed
  {
    StripClean("N");
  }

  /** A rejected answer prints the guidance; ` n ` is stripped and cancels. */
  lemma RepromptExample(question: string)
    ensures AskYesNo(question, ["maybe", " n "]) ==
            GateRun(Cancel, [Prompt(PromptText(question)), Say(Guidance), Prompt(PromptText(question))], 2)
  {
    StripClean("maybe");
    assert StripStart(" n ") == StripStart("n ");
    assert Strip(" n ") == StripEnd("n ") == StripEnd("n");
    var rest := Ask(question, [" n "], "maybe");
    assert rest == GateRun(Cancel, [Say(Guidance), Prompt(PromptText(question))], 1);
    assert ["maybe", " n "][1..] == [" n "];
  }

  /** Typing `undefined` is rejected without the guidance line. */
  lemma UndefinedExample(question: string)
    ensures AskYesNo(question, ["undefined", "y"]) ==
            GateRun(Proceed, [Prompt(PromptText(question)), Prompt(PromptText(question))], 2)
  {
    StripClean(Undefined);
    StripClean("y");
    var rest := Ask(question, ["y"], Undefined);
    assert rest == GateRun(Proceed, [Prompt(PromptText(question))], 1);
    assert ["undefined", "y"][1..] == ["y"];
  }
}
