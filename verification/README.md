# grizzly-cli scenario load-distribution planner, in Dafny

This project models `distribution_of_users_per_scenario` of grizzly-cli
(`grizzly_cli/utils.py`), together with the `ask_yes_no` confirmation prompt
that ends it, and proves properties of the model. Before a load test runs, the
planner decides how many simulated users each scenario of a feature file gets.

The call goes through these stages:

1. **Variables.** Every `TESTDATA_VARIABLE_*` environment entry becomes a
   template variable. Its value is typed by `_guess_datatype` as text,
   integer, float or boolean (module `TypeGuess`).
2. **Extraction.** The parsed scenarios are scanned in order. Each unique
   scenario name gets one descriptor (`ScenarioProperties`) with:
   - its 1-based index of first appearance;
   - that index zero-filled to three digits as identifier;
   - a user type, a weight and an iteration count, all taken from its steps.

   A repeated name merges into the descriptor that already exists. The user
   budget comes from `Given "<N>" users` steps in the background of the first
   scenario only (modules `Steps` and `Extraction`).
3. **Checks and allocation.** The planner refuses:
   - more descriptors than users;
   - then the first descriptor without a user type;
   - then a zero total weight (a division by zero in the source).

   Each descriptor first gets `ceil(budget * weight / total)` users. Smoothing
   passes then visit the descriptors by user count, largest first, with ties
   in insertion order. Each pass takes one user from every descriptor that has
   more than one, until the counts add up to the budget (modules `Ordering`,
   `Allocation`, `Planner`).
4. **Report.** The summary and the fixed-width table are printed (module
   `Report`).
5. **Final check and prompt.** The first descriptor with more users than
   iterations is refused, after the table has been printed. Unless `--yes`
   was given, the planner then asks `continue? [y/n]: ` (module `Gate`).

The whole call is `Planner.DistributionOfUsers`. It returns a `Run` with three
parts:
- the events written: printed lines and prompts;
- the outcome: proceed, cancel, input exhausted, or the error raised;
- the descriptors with their user counts.

The inputs are plain values:
- the environment, as a sequence of key/value pairs in iteration order;
- the parsed scenarios;
- the template renderer, as a function parameter;
- the `--yes` flag;
- the lines the user would type at the prompt.

Details of the source's behaviour that the model keeps, easy to miss on a first reading:
- Only an exact lower-case `n` cancels. `N` ends the prompt like `y` does.
- The guidance line `you must answer y (yes) or n (no)` comes before every
  re-prompt, except when the previous answer was literally `undefined`. The
  loop uses that word as its start value.
- Weights are truncated toward zero, so they can be zero or negative. A zero
  total weight is the source's `ZeroDivisionError`. A negative total is
  followed through exactly.
- `with weight ""` captures the empty text, and `group(3) or '1.0'` falls
  back on `1.0` for it, so the weight is 1.
- `_guess_datatype` fails on `""` and `"."` (the index of an empty string) and
  on `".-<digits>"` (the numeric test admits it but `float()` rejects it).

Floating point is replaced by exact arithmetic:
- `ceil(B * (w / T))` becomes the integer ceiling of `B*w/T`;
- `round(x, 0)` becomes exact round-half-to-even on rationals;
- `int(float(x))` becomes truncation of a rational.

## Model

| member | source | states |
|---|---|---|
| Numbers.CeilDiv | grizzly_cli/utils.py:676 | the ceiling of p/q: the least c with c*q >= p for a positive q, and the mirrored bound for a negative q |
| Numbers.Truncate | grizzly_cli/utils.py:656 | `int()` of a number truncates toward zero: the result lies within one of x, on the side of zero |
| Numbers.RoundHalfEven | grizzly_cli/utils.py:649 | `round(x, 0)` is within 0.5 of x, and an exact tie goes to the even neighbour |
| Numbers.RoundHalfEvenUnique | grizzly_cli/utils.py:660 | any integer within 0.5 of x that is even on a tie is the rounded value, so the rounding is fully determined |
| Text.ZeroPad3 | grizzly_cli/utils.py:620 | the identifier `f'{index:03}'` is all digits, denotes the index, and is three characters or the index's own length if longer |
| Text.NatToString | grizzly_cli/utils.py:714-715 | `str()` of a count is non-empty decimal digits that denote it, with a leading zero only for 0 |
| Text.PadLeft | grizzly_cli/utils.py:718-726 | right alignment: the value ends the field, preceded only by spaces, and the field is at least the width |
| Text.PadRight | grizzly_cli/utils.py:718-719 | left alignment: the value starts the field, followed only by spaces |
| Text.ToLower | grizzly_cli/utils.py:592 | lower-casing keeps the length and lowers each character |
| Text.RemoveFirst | grizzly_cli/utils.py:579 | `replace('.', '', 1)` leaves text without a dot unchanged and removes exactly one character otherwise |
| Text.RemoveFirstAt | grizzly_cli/utils.py:579 | the character removed is the first occurrence: the text before it and the text after it are kept as they were |
| Text.RemoveAllAbsent | grizzly_cli/utils.py:624 | `replace(prefix, '')` leaves text that never contains the prefix unchanged |
| TypeGuess.GuessDatatype | grizzly_cli/utils.py:578-595 | both directions: every result is what the value denotes (text is the value itself, an integer is a whole value not starting with 0, a float has a fraction, a boolean lowers to true/false); and every value that denotes a decimal is typed as a float, kept as text when it starts with 0, or an integer, while any other value that types is a boolean when it lowers to true/false and text otherwise; the only errors are the empty value and a rejected float |
| TypeGuess.ParseGate | grizzly_cli/utils.py:579-584 | every value that reads as a decimal number passes the numeric test: one dot removed and one leading minus dropped leave only digits |
| TypeGuess.GuessFailsExactly | grizzly_cli/utils.py:579-585 | typing fails exactly on "", "." and ".-<digits>" |
| TypeGuess.GuessWord | grizzly_cli/utils.py:592-595 | a value starting with a letter is a boolean when it lowers to true/false and is kept as text otherwise |
| TypeGuess.IntRoundTrip | grizzly_cli/utils.py:584-589 | the decimal text of any non-zero integer is typed back as that integer |
| TypeGuess.LeadingZeroKept | grizzly_cli/utils.py:586-587 | an all-digit value starting with 0 stays text, so "007" keeps its zeros |
| TypeGuess.GuessTextExamples | grizzly_cli/utils.py:586-595 | "007", "0" and "abc" stay text |
| TypeGuess.GuessBoolExamples | grizzly_cli/utils.py:592-593 | "true" and "False" are booleans |
| TypeGuess.GuessIntExample | grizzly_cli/utils.py:589 | "7" is the integer 7 |
| TypeGuess.GuessWholeFloatExample | grizzly_cli/utils.py:585-589 | "1.0" is the integer 1 |
| TypeGuess.GuessFloatExample | grizzly_cli/utils.py:590-591 | "7.5" is the float 7.5 |
| TypeGuess.GuessDotBeforeMinusExample | grizzly_cli/utils.py:579-585 | ".-5" passes the numeric test but is rejected as not a float |
| TypeGuess.Variables | grizzly_cli/utils.py:624 | building the variables can fail only with a typing error: an empty value or a rejected float |
| TypeGuess.VariablesFail | grizzly_cli/utils.py:624 | building the variables fails exactly when some prefixed entry has a value that typing rejects |
| TypeGuess.VariablesNames | grizzly_cli/utils.py:624 | the bound names are exactly the prefixed keys with the prefix removed |
| TypeGuess.VariablesLastWins | grizzly_cli/utils.py:624 | a name is bound to the typed value of the last entry that defines it |
| TypeGuess.PlainKeyBinds | grizzly_cli/utils.py:624 | a key with the prefix once binds the rest of the key |
| Steps.SplitAtQuote | grizzly_cli/utils.py:647 | `[^"]*"` splits at the first quote: the part before it has no quote and the parts rejoin to the text |
| Steps.SplitAtQuoteOf | grizzly_cli/utils.py:653 | a quote-free text followed by a quote is split back into the same two parts |
| Steps.MatchUserTypeOf | grizzly_cli/utils.py:653 | `a user of type "T" rest` matches with user T and the weight clause read from rest |
| Steps.MatchUserTypeShape | grizzly_cli/utils.py:653 | conversely, every match has that shape: the opening, a quote-free T, a closing quote and a space |
| Steps.WeightOfOf | grizzly_cli/utils.py:653-656 | `with weight "E"` captures E up to its closing quote |
| Steps.MatchRepeatOf | grizzly_cli/utils.py:658 | `repeat for "N" iteration...` matches with N |
| Steps.MatchRepeatShape | grizzly_cli/utils.py:658 | conversely, every match has that shape |
| Steps.Classify | grizzly_cli/utils.py:652-660 | a step sets the user exactly when it starts with `a user of type` and matches that pattern; it sets iterations exactly when it starts with `repeat for` (and not the user prefix) and matches that pattern; anything else is ignored |
| Steps.MatchUserType | grizzly_cli/utils.py:653 | a match needs the `a user of type "` opening; the user type and the weight text it captures contain no quote |
| Steps.MatchUserTypeClassified | grizzly_cli/utils.py:652-656 | a step whose text matches the user pattern sets the user type and weight it captures |
| Steps.MatchRepeat | grizzly_cli/utils.py:658 | a match needs the `repeat for "` opening and the count text it captures contains no quote |
| Steps.MatchUserCount | grizzly_cli/utils.py:646-647 | only a `Given` step whose text starts with a quote sets the budget, and the count text it captures contains no quote |
| Steps.MatchUserCountShape | grizzly_cli/utils.py:646-647 | conversely, every budget step is `Given`, ends in ` user` or ` users`, and its text is a quote, the quote-free count, and `" user` followed by the rest |
| Steps.MatchUsersOf | grizzly_cli/utils.py:646-649 | a `Given "<N>" users` background step yields N |
| Steps.MatchUserOf | grizzly_cli/utils.py:646-649 | a `Given "<N>" user` background step yields N |
| Steps.MatchUserCountNeedsGiven | grizzly_cli/utils.py:646 | another keyword, or a text not ending in ` user`/` users`, never sets the budget |
| Extraction.Render | grizzly_cli/utils.py:649 | rendering fails exactly when the renderer does, naming the expression, and otherwise yields the renderer's number |
| Extraction.StepWeight | grizzly_cli/utils.py:656 | no weight clause, or an empty one, gives weight 1; any other weight expression succeeds exactly when it renders, and then gives the rendered number truncated toward zero; a failure names the weight expression |
| Extraction.StepIterations | grizzly_cli/utils.py:660 | reading iterations fails exactly when the renderer fails |
| Extraction.ApplyStep | grizzly_cli/utils.py:651-660 | a step succeeds exactly when what it sets renders, and fails only on rendering; it never changes the name, index, identifier or user count; a user step sets the captured user and its weight, a repeat step sets the iterations read from its rendered count, and anything not set is left as it was; an ignored step changes nothing |
| Extraction.WeightTruncated | grizzly_cli/utils.py:652-656 | `a user of type "T" with weight "E"` with a non-empty E sets user T and the rendered E truncated toward zero, and fails naming E exactly when E does not render |
| Extraction.WeightClassified | grizzly_cli/utils.py:652-653 | such a step is a user-type step capturing T and E |
| Extraction.TruncatedWeightExamples | grizzly_cli/utils.py:656 | a weight rendering to 2.7 is 2 and one rendering to -2.7 is -2 |
| Extraction.EmptyWeightIsOne | grizzly_cli/utils.py:653-656 | `a user of type "T" with weight ""` sets the user T with weight 1 |
| Extraction.ApplySteps | grizzly_cli/utils.py:651 | the same for all steps of a scenario |
| Extraction.ApplyStepsLastWins | grizzly_cli/utils.py:651-660 | applying a scenario's steps succeeds exactly when every step that sets something renders; then the last user step decides the user and weight and the last repeat step decides the iterations, and without such a step the start value is kept |
| Extraction.ApplyStepsAppend | grizzly_cli/utils.py:651-660 | applying two runs of steps in turn is applying their concatenation |
| Extraction.LastMatch | grizzly_cli/utils.py:645-649 | the position of the last budget step: it matches, and no step after it does |
| Extraction.Budget | grizzly_cli/utils.py:644-649 | without any budget step the budget is left as it was |
| Extraction.BudgetLastWins | grizzly_cli/utils.py:644-649 | reading the budget fails exactly when a budget step does not render; otherwise the last budget step decides it, rounded half to even, and without one the budget is unchanged |
| Extraction.Slot | grizzly_cli/utils.py:626-634 | a known name keeps the descriptors as they are; a new one appends a fresh descriptor with the given index; the slot holds the name |
| Extraction.ExtractScenario | grizzly_cli/utils.py:638-660 | a scenario without steps is an error naming it; a successful scan adds a descriptor exactly when the name is new, and only the first scenario can change the budget |
| Extraction.Extract | grizzly_cli/utils.py:638-660 | there are never more descriptors than scenarios |
| Extraction.ExtractNonEmpty | grizzly_cli/utils.py:639-640 | extraction succeeds only when every scenario has steps |
| Extraction.ExtractEmptyScenario | grizzly_cli/utils.py:639-640 | an empty-scenario error names a scenario without steps |
| Extraction.ExtractKeyed | grizzly_cli/utils.py:626-642 | one descriptor per scenario name, in order of first appearance, each with the 1-based index of that appearance, the zero-filled identifier and no users |
| Extraction.KeyedNamesDistinct | grizzly_cli/utils.py:623-634 | the descriptors are keyed by name: no two share one |
| Extraction.ExtractMerges | grizzly_cli/utils.py:642-660 | each descriptor is its fresh record with the steps of every scenario of its name applied in scenario order |
| Extraction.ExtractBudget | grizzly_cli/utils.py:636-649 | the budget starts at 0 and is read from the first scenario's background only |
| Extraction.ExtractStepsDecide | grizzly_cli/utils.py:642-660 | every descriptor's user, weight and iterations are those set by the last step, over all scenarios of its name, that sets them, or the defaults when none does |
| Extraction.LaterBackgroundsIgnored | grizzly_cli/utils.py:644 | removing the backgrounds of all scenarios after the first does not change the extraction |
| Extraction.BudgetErrorIsRender | grizzly_cli/utils.py:649 | the only way reading the budget fails is a render failure |
| Extraction.ApplyStepsErrorIsRender | grizzly_cli/utils.py:656-660 | the only way applying steps fails is a render failure |
| Ordering.Order | grizzly_cli/utils.py:683 | the visiting order lists every descriptor once, sorted by user count descending, ties in insertion order |
| Ordering.OrderUnique | grizzly_cli/utils.py:683 | any arrangement with those properties is the visiting order, so a stable descending sort is fully determined |
| Allocation.Provisional | grizzly_cli/utils.py:675-676 | one first count per descriptor, the ceiling of budget * weight / total |
| Allocation.Ceilings | grizzly_cli/utils.py:675-676 | every descriptor's first count is the ceiling of budget * weight / total |
| Allocation.ProvisionalTotal | grizzly_cli/utils.py:675-680 | the first counts add up to at least the budget, and exceed it by less than the number of descriptors |
| Allocation.ProvisionalPositive | grizzly_cli/utils.py:676 | a positive weight under a positive total and budget starts with at least one user |
| Allocation.Pass | grizzly_cli/utils.py:683-691 | one pass lowers each count by at most one, only counts above 1 and only positions it visits, and it lowers the overflow by exactly what it takes |
| Allocation.PassLowers | grizzly_cli/utils.py:683-691 | a pass lowers exactly the counts above 1 that are among the first `overflow` such counts in visiting order |
| Allocation.OverBudgetEligible | grizzly_cli/utils.py:663-685 | while the counts exceed a budget of at least one user per descriptor, some count in the visiting order is above 1, so each pass makes progress |
| Allocation.Smooth | grizzly_cli/utils.py:678-691 | the smoothing loop ends with counts that add up to the budget; counts only go down, and a lowered count stays at least 1 |
| Allocation.SmoothKeepsOne | grizzly_cli/utils.py:684-685 | counts that start at one or more stay at one or more |
| Allocation.RunPass | grizzly_cli/utils.py:683-691 | the in-place `for` loop of a pass computes exactly the pass |
| Allocation.SmoothCounts | grizzly_cli/utils.py:678-691 | the `while` loop, with overflow = sum - budget as invariant and measure, computes exactly the smoothing |
| Allocation.Distribute | grizzly_cli/utils.py:675-691 | one count per descriptor; the counts add up to the budget; none exceeds its first count, and a lowered count stays at least 1 |
| Allocation.DistributeExactFit | grizzly_cli/utils.py:675-691 | with positive weights and exactly one user per descriptor, every descriptor gets one user |
| Allocation.DistributeSingle | grizzly_cli/utils.py:675-691 | a single descriptor with a non-zero weight gets the whole budget |
| Allocation.DistributeTotal | grizzly_cli/utils.py:675-691 | the final counts add up to the budget and none exceeds its first count |
| Allocation.DistributePositive | grizzly_cli/utils.py:675-691 | with positive weights every descriptor ends with at least one user |
| Allocation.DistributeExampleWeighted | grizzly_cli/utils.py:675-691 | weights 1, 1, 2 with 10 users give 3, 3, 4 |
| Allocation.DistributeExampleTies | grizzly_cli/utils.py:682-691 | four equal weights with 6 users give 1, 1, 2, 2: tied counts give users back in insertion order |
| Report.Width | grizzly_cli/utils.py:705-715 | a column is as wide as its header or its longest value, whichever is longer |
| Report.Preamble | grizzly_cli/utils.py:710-737 | seven lines: blank, the summary with the sum of all iteration counts, blank, the title, blank, the header and the separator |
| Report.Separator | grizzly_cli/utils.py:693-703 | the separator is as long as the header up to the description column, plus the description width and the closing `-|` |
| Report.SeparatorDashes | grizzly_cli/utils.py:693-703 | the separator is made of `-` and `|` only |
| Report.Lines | grizzly_cli/utils.py:705-742 | nine lines besides one row per descriptor |
| Report.LinesShape | grizzly_cli/utils.py:710-742 | the printed lines are the preamble, one row per descriptor in insertion order, a closing separator identical to the first, and a blank line |
| Report.LineAligned | grizzly_cli/utils.py:718-736 | cells that fit their columns put the description at the same column |
| Report.TableAligned | grizzly_cli/utils.py:693-742 | the header and every row whose identifier and weight fit start their description in the same column; the separator is as long as the widest line plus the closing `-|` |
| Gate.Strip | grizzly_cli/utils.py:525-526 | stripping never lengthens the line |
| Gate.StripTrims | grizzly_cli/utils.py:525-526 | a stripped line neither starts nor ends with whitespace |
| Gate.StripStartSpec | grizzly_cli/utils.py:526 | stripping on the left removes exactly the leading whitespace |
| Gate.StripEndSpec | grizzly_cli/utils.py:526 | stripping on the right removes exactly the trailing whitespace |
| Gate.StripIdempotent | grizzly_cli/utils.py:526 | stripping twice is stripping once |
| Gate.AnsweredLower | grizzly_cli/utils.py:531 | the loop ends on an answer exactly when it lowers to `y` or `n` |
| Gate.Ask | grizzly_cli/utils.py:529-537 | the loop reads no more lines than given; running out of input means every line was read, and a decision means at least one was |
| Gate.AskEnds | grizzly_cli/utils.py:531-537 | the last line read ends the loop: it lowers to y or n, and it is exactly `n` when the loop cancels |
| Gate.AskYesNo | grizzly_cli/utils.py:529-537 | the prompt as the planner calls it, from the start value `undefined`: the same bounds, and the last line read is an answer, `n` on a cancel |
| Gate.AskDecides | grizzly_cli/utils.py:529-537 | the first answer that lowers to y/n decides and nothing after it is read; it cancels exactly when it is `n`; without one the input runs out after every line has been read |
| Gate.AskYesNoDecides | grizzly_cli/utils.py:529-537 | the same for the prompt as the planner calls it |
| Gate.Turn | grizzly_cli/utils.py:532-534 | a turn writes one prompt, preceded by the guidance line unless the previous answer was `undefined` |
| Gate.AskTranscript | grizzly_cli/utils.py:531-534 | one prompt per read line (one more when the input runs out), and one guidance line per rejected answer other than `undefined` |
| Gate.AskYesNoTranscript | grizzly_cli/utils.py:530-534 | the same from the start value `undefined`, so the first prompt has no guidance line |
| Gate.UpperNProceeds | grizzly_cli/utils.py:536-537 | `N` ends the prompt without cancelling |
| Gate.RepromptExample | grizzly_cli/utils.py:531-537 | `maybe` then ` n ` prints the guidance once and cancels |
| Gate.UndefinedExample | grizzly_cli/utils.py:530-534 | typing `undefined` re-prompts without the guidance line |
| Planner.DistributionOfUsers | grizzly_cli/utils.py:577-749 | a run that reaches a decision has printed at least the table with one row per descriptor; with `--yes` it proceeds or fails, never cancels |
| Planner.FirstWhere | grizzly_cli/utils.py:668-670 | the first position satisfying the condition, with none before it |
| Planner.Allocate | grizzly_cli/utils.py:662-676 | allocation keeps the descriptors and their order and changes nothing but the user counts |
| Planner.AllocateSucceeds | grizzly_cli/utils.py:662-676 | allocation succeeds exactly when the budget covers every descriptor, every descriptor has a user type, and the weights do not sum to zero |
| Planner.AllocateErrors | grizzly_cli/utils.py:662-676 | the budget check comes first; then the first descriptor without a user type, in insertion order; then the zero total weight |
| Planner.AllocateTotal | grizzly_cli/utils.py:675-691 | the allocated counts add up to the budget, and none exceeds its rounded-up share |
| Planner.AllocatePositive | grizzly_cli/utils.py:675-691 | with positive weights every descriptor gets at least one user |
| Planner.FinishOutput | grizzly_cli/utils.py:705-749 | the output starts with the table; with `--yes` or on failure nothing follows it; the only failure left is the first descriptor with more users than iterations |
| Planner.FinishDecides | grizzly_cli/utils.py:744-749 | the run proceeds exactly when every descriptor has enough iterations and either `--yes` was given or the first y/n answer is not `n`; it cancels exactly on `n`; `--yes` never prompts |
| Planner.FinishFits | grizzly_cli/utils.py:744-746 | proceeding means no descriptor has more users than iterations |
| Planner.PlanStages | grizzly_cli/utils.py:624-749 | a failure while reading variables, extracting or allocating ends the call with that error, nothing printed and no plan; after a successful allocation the plan is the allocation's, the output starts with the summary table, and the only failure left is too few iterations |
| Planner.PlanProceeds | grizzly_cli/utils.py:624-749 | a run that proceeds has enough iterations for every user and counts that add up to the budget |
| Planner.AllocatedProceeds | grizzly_cli/utils.py:675-749 | after allocation, proceeding means every count fits its iterations and the counts add up to the budget |
| Planner.PlanKeyed | grizzly_cli/utils.py:623-642 | after a successful allocation the plan has one descriptor per scenario name, distinct and in order of first appearance |
| Planner.PlanKeepsKeys | grizzly_cli/utils.py:675-691 | changing only the user counts keeps the plan keyed by first appearance |
| Planner.NoBudgetRejects | grizzly_cli/utils.py:636-664 | without a budget step in the first background, any non-empty feature is refused for too few users, with nothing printed |

## Left out

- Floating point: `ceil`, `round` and `int(float())` are modelled on exact rationals. Rounding artefacts of binary floats, infinities and NaN are not modelled. For example, a digit string too long for a float would overflow to `inf` in the source.
- The Jinja renderer and the `float()` applied to its output are a function parameter that yields a number or nothing.
- The model's `_guess_datatype` and `str.lower()` use ASCII only. Other Unicode decimal digits and letters are not modelled. This does not change any comparison with `y`, `n`, `true` or `false`. `str.strip()` uses Python's full whitespace set, including the separators `\x1c`-`\x1f`.
- Text.RemoveAll: its contract only bounds the length. Its meaning is stated for keys with a single prefix by `TypeGuess.PlainKeyBinds` and `Text.RemoveAllAbsent`.
- Gate.Ask: its own contract only bounds how many lines are read. The last line read is stated by `Gate.AskEnds`. The decision and the transcript are stated by `Gate.AskDecides` and `Gate.AskTranscript`.
- Gate.Strip: its own contract only bounds the length. Its meaning is stated by `Gate.StripTrims`, `Gate.StripStartSpec` and `Gate.StripEndSpec`.
- Extraction.ApplySteps: its own contract only keeps the identity fields. What the steps set is stated by `Extraction.ApplyStepsLastWins`.
- Extraction.Budget: its own contract only covers the case without a budget step. The rest is stated by `Extraction.BudgetLastWins`.
- Extraction.Extract: its own contract only bounds the number of descriptors. Its meaning is stated by `Extraction.ExtractKeyed`, `Extraction.ExtractMerges` and `Extraction.ExtractStepsDecide`.
- TypeGuess.Variables: its own contract only names the possible errors. Its meaning is stated by `TypeGuess.VariablesFail`, `TypeGuess.VariablesNames` and `TypeGuess.VariablesLastWins`.
- Report.Lines: its own contract only counts the lines. Their contents are stated by `Report.LinesShape` and `Report.TableAligned`.
- Report.Row: it has no contract of its own. The column each row puts its description at is stated by `Report.LineAligned` and `Report.TableAligned`, and the order of the rows by `Report.LinesShape`.
- Report.Separator: its own contract only gives the length. Its characters are stated by `Report.SeparatorDashes`.
- Planner.DistributionOfUsers: its own contract only bounds the output and excludes a cancel under `--yes`. The stages are stated by the `Planner.Plan*`, `Planner.Allocate*` and `Planner.Finish*` lemmas.
- Terminal I/O: the prompt reads from a given sequence of typed lines. End of input, where the source raises `EOFError`, is the decision `InputExhausted`. `KeyboardInterrupt` is the decision `Cancel`.
- Output is the sequence of printed lines and prompts, not a byte stream.
- `print_table_lines` writes a separator with several `sys.stdout.write` calls. It is modelled as one printed line.
- Parsing the feature file (`parse_feature_file`) is not part of this model. Scenarios arrive already parsed: name, steps and background steps, each step a keyword and a text.
- The process-global scenario cache is not part of this model. The scenarios are a parameter.
- The rest of `grizzly_cli/utils.py` (subprocess, Docker, git, PyPI and filesystem helpers) and `grizzly_cli/argparse/markdown.py` are not part of this model.
