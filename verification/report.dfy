/**
 * The summary the planner prints before asking to continue
 * (grizzly_cli/utils.py, `distribution_of_users_per_scenario`): the total
 * iteration count, then a table with one row per descriptor in insertion
 * order. Output is modelled as the list of printed lines.
 */
module Report {
  import opened Text
  import opened Numbers
  import opened Extraction

  const IdentHeader: string := "ident"
  const WeightHeader: string := "weight"
  const IterationsHeader: string := "#iter"
  const UsersHeader: string := "#user"
  const DescriptionHeader: string := "description"

  /** Width of a column: its longest value, and never narrower than its header. */
  function Width(header: string, values: seq<string>): (w: nat)
    ensures w >= |header|
    ensures forall k :: 0 <= k < |values| ==> |values[k]| <= w
    ensures w == |header| || exists k :: 0 <= k < |values| && w == |values[k]|
    decreases |values|
  {
    if |values| == 0 then |header|
    else
      var n := |values| - 1;
      var w := Width(header, values[..n]);
      assert forall k :: 0 <= k < n ==> values[k] == values[..n][k];
      if |values[n]| > w then |values[n]| else w
  }

  function IterationTexts(specs: seq<Spec>): (r: seq<string>)
    ensures |r| == |specs| && forall k :: 0 <= k < |specs| ==> r[k] == IntToString(specs[k].iterations)
  {
    seq(|specs|, k requires 0 <= k < |specs| => IntToString(specs[k].iterations))
  }

  function UserTexts(specs: seq<Spec>): (r: seq<string>)
    ensures |r| == |specs| && forall k :: 0 <= k < |specs| ==> r[k] == IntToString(specs[k].userCount)
  {
    seq(|specs|, k requires 0 <= k < |specs| => IntToString(specs[k].userCount))
  }

  /** The widths of the `#iter`, `#user` and `description` columns. */
  datatype Widths = Widths(iterations: nat, users: nat, description: nat)

  function ColumnWidths(specs: seq<Spec>): Widths {
    Widths(Width(IterationsHeader, IterationTexts(specs)),
           Width(UsersHeader, UserTexts(specs)),
           Width(DescriptionHeader, Names(specs)))
  }

  /** `'{:5}   {:>6}  {:>{}}  {:>{}}  {}'` with the given five cells. */
  function Line(ident: string, weight: string, iterations: string, users: string, description: string, w: Widths): string {
    PadRight(ident, 5) + "   " + PadLeft(weight, 6) + "  " + PadLeft(iterations, w.iterations) + "  "
    + PadLeft(users, w.users) + "  " + description
  }

  function Header(w: Widths): string {
    Line(IdentHeader, WeightHeader, IterationsHeader, UsersHeader, DescriptionHeader, w)
  }

  function Row(spec: Spec, w: Widths): string {
    Line(spec.identifier, IntToString(spec.weight), IntToString(spec.iterations), IntToString(spec.userCount), spec.name, w)
  }

  /**
   * `print_table_lines`: dashes under every column, joined by `-|-`. It
   * spans the description column plus the widest description and the
   * closing `-|`.
   */
  function Separator(w: Widths): (s: string)
    ensures |s| == DescriptionColumn(w) + w.description + 2
  {
    Repeat('-', 5) + "-|-" + Repeat('-', 6) + "|-" + Repeat('-', w.iterations) + "|-" + Repeat('-', w.users)
    + "|-" + Repeat('-', w.description) + "-|"
  }

  function IterationCounts(specs: seq<Spec>): (r: seq<int>)
    ensures |r| == |specs| && forall k :: 0 <= k < |specs| ==> r[k] == specs[k].iterations
  {
    seq(|specs|, k requires 0 <= k < |specs| => specs[k].iterations)
  }

  /** The iterations of all descriptors together. */
  function TotalIterations(specs: seq<Spec>): int {
    Sum(IterationCounts(specs))
  }

  function Rows(specs: seq<Spec>, w: Widths): (r: seq<string>)
    ensures |r| == |specs| && forall k :: 0 <= k < |specs| ==> r[k] == Row(specs[k], w)
  {
    seq(|specs|, k requires 0 <= k < |specs| => Row(specs[k], w))
  }

  /**
   * The lines before the table rows: a blank line, the summary naming the
   * feature file and the iterations of all descriptors together, a blank
   * line, the table title, a blank line, the header and a separator.
   */
  function Preamble(file: string, specs: seq<Spec>, w: Widths): (r: seq<string>)
    ensures |r| == 7 && r[0] == "" && r[2] == "" && r[4] == ""
    ensures r[1] == Summary(file, Sum(IterationCounts(specs)))
    ensures r[3] == TableTitle
    ensures r[5] == Header(w) && r[6] == Separator(w)
  {
    ["", Summary(file, TotalIterations(specs)), "", TableTitle, "", Header(w), Separator(w)]
  }

  /** The summary line naming the feature file and the total iteration count. */
  function Summary(file: string, total: int): string {
    "feature file " + file + " will execute in total " + IntToString(total) + " iterations"
  }

  const TableTitle: string := "each scenario will execute accordingly:"

  /** Every printed line, in order; `print` ends each with a newline. */
  function Lines(file: string, specs: seq<Spec>): (lines: seq<string>)
    ensures |lines| == |specs| + 9
  {
    var w := ColumnWidths(specs);
    Preamble(file, specs, w) + Rows(specs, w) + [Separator(w), ""]
  }

  /** A separator holds nothing but dashes and the column bars. */
  lemma SeparatorDashes(w: Widths)
    ensures forall i :: 0 <= i < |Separator(w)| ==> Separator(w)[i] == '-' || Separator(w)[i] == '|'
  {
  }

  lemma ThreeParts<T>(a: seq<T>, b: seq<T>, c: seq<T>)
    ensures |a + b + c| == |a| + |b| + |c|
    ensures forall k :: 0 <= k < |a| ==> (a + b + c)[k] == a[k]
    ensures forall k :: 0 <= k < |c| ==> (a + b + c)[|a| + |b| + k] == c[k]
  {
  }

  lemma MiddlePart<T>(a: seq<T>, b: seq<T>, c: seq<T>, k: nat)
    requires k < |b|
    ensures (a + b + c)[|a| + k] == b[k]
  {
  }

  /**
   * The table has a header, a separator, one row per descriptor in
   * insertion order and a closing separator identical to the first.
   */
  lemma LinesShape(file: string, specs: seq<Spec>)
    ensures var lines := Lines(file, specs);
            var w := ColumnWidths(specs);
            |lines| == |specs| + 9
            && lines[5] == Header(w)
            && lines[6] == Separator(w) && lines[7 + |specs|] == Separator(w)
            && (forall k :: 0 <= k < |specs| ==> lines[7 + k] == Row(specs[k], w))
            && lines[8 + |specs|] == ""
  {
    var w := ColumnWidths(specs);
    var p, r, c := Preamble(file, specs, w), Rows(specs, w), [Separator(w), ""];
    var lines := Lines(file, specs);
    assert lines == p + r + c;
    ThreeParts(p, r, c);
    assert lines[7 + |specs|] == c[0];
    assert lines[8 + |specs|] == c[1];
    forall k | 0 <= k < |specs|
      ensures lines[7 + k] == Row(specs[k], w)
    {
      MiddlePart(p, r, c, k);
    }
  }

  /** Where the description column starts in the header and in every row. */
  function DescriptionColumn(w: Widths): nat {
    5 + 3 + 6 + 2 + w.iterations + 2 + w.users + 2
  }

  /**
   * Cells that fit their columns give a line whose description starts at
   * the description column.
   */
  lemma LineAligned(ident: string, weight: string, iterations: string, users: string, description: string, w: Widths)
    requires |ident| <= 5 && |weight| <= 6 && |iterations| <= w.iterations && |users| <= w.users
    ensures var line := Line(ident, weight, iterations, users, description, w);
            |line| == DescriptionColumn(w) + |description|
            && line[DescriptionColumn(w)..] == description
  {
    var line := Line(ident, weight, iterations, users, description, w);
    var prefix := PadRight(ident, 5) + "   " + PadLeft(weight, 6) + "  " + PadLeft(iterations, w.iterations) + "  "
                  + PadLeft(users, w.users) + "  ";
    assert line == prefix + description;
  }

  /**
   * The table is aligned: the header and every row whose identifier fits
   * in five characters and whose weight fits in six start their
   * description in the same column, and the separators are exactly as long
   * as the widest such line plus the closing `-|`.
   */
  lemma TableAligned(specs: seq<Spec>, k: nat)
    requires k < |specs| && |specs[k].identifier| <= 5 && |IntToString(specs[k].weight)| <= 6
    ensures var w := ColumnWidths(specs);
            var row := Row(specs[k], w);
            |row| == DescriptionColumn(w) + |specs[k].name|
            && row[DescriptionColumn(w)..] == specs[k].name
            && |Header(w)| == DescriptionColumn(w) + |DescriptionHeader|
            && |specs[k].name| <= w.description
            && |Separator(w)| == DescriptionColumn(w) + w.description + 2
  {
    var w := ColumnWidths(specs);
    assert IterationTexts(specs)[k] == IntToString(specs[k].iterations);
    assert UserTexts(specs)[k] == IntToString(specs[k].userCount);
    assert Names(specs)[k] == specs[k].name;
    LineAligned(specs[k].identifier, IntToString(specs[k].weight), IntToString(specs[k].iterations),
                IntToString(specs[k].userCount), specs[k].name, w);
    LineAligned(IdentHeader, WeightHeader, IterationsHeader, UsersHeader, DescriptionHeader, w);
  }
}
