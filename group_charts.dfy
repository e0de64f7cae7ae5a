/** The group-chart script: which input files are measure tables, the measure id taken
    from the file name, the roles of the columns reconstructed from their positions,
    the rows that are charted, the single-line or grouped chart decision and the name
    of the output image. */
module GroupCharts {
  import opened Tables
  import opened Text

  /** The literal text that `MEASURE_FNAME_REGEX` starts with. */
  const MeasurePrefix := "measure_ast_reg_"
  const CsvExtension := ".csv"

  /** Matching a file name against the measure-file pattern, and its `id` group. The match is anchored at
      the start only, so anything may follow ".csv". The greedy `\w+` can stop only at
      a non-word character, and "." is one, so the id is the whole word run after the
      prefix. */
  function MeasureId(name: string): (id: Option<string>)
    ensures id.Some? ==> |id.value| >= 1 && IsWord(id.value)
    ensures id.Some? ==>
      var end := |MeasurePrefix| + |id.value| + |CsvExtension|;
      end <= |name| && name == MeasurePrefix + id.value + CsvExtension + name[end..]
    ensures (|name| < |MeasurePrefix| || name[..|MeasurePrefix|] != MeasurePrefix) ==> id.None?
  {
    var p := |MeasurePrefix|;
    if |name| < p || name[..p] != MeasurePrefix then None
    else
      var rest := name[p..];
      var k := WordRun(rest);
      if k >= 1 && k + 4 <= |rest| && rest[k..k + 4] == CsvExtension then
        assert name == MeasurePrefix + rest[..k] + CsvExtension + name[p + k + 4..];
        Some(rest[..k])
      else None
  }

  /** Every name of the recognised shape is recognised, with its word run as the id,
      whatever follows the extension. */
  lemma MeasureIdRoundTrip(id: string, tail: string)
    requires |id| >= 1 && IsWord(id)
    ensures MeasureId(MeasurePrefix + id + CsvExtension + tail) == Some(id)
  {
    var name := MeasurePrefix + id + CsvExtension + tail;
    var rest := name[|MeasurePrefix|..];
    assert name[..|MeasurePrefix|] == MeasurePrefix;
    assert rest == id + (CsvExtension + tail);
    WordRunOfWord(id, CsvExtension + tail);
    assert rest[..|id|] == id;
    assert rest[|id|..|id| + 4] == CsvExtension;
  }

  predicate IsMeasureFile(name: string)
  {
    MeasureId(name).Some?
  }

  /** The ids `get_measure_tables` yields, in input order: a file whose name does not
      match is skipped without an error. */
  function MeasureIds(names: seq<string>): (ids: seq<string>)
    ensures var files := Filter(names, IsMeasureFile);
      |ids| == |files| && forall k :: 0 <= k < |ids| ==> MeasureId(files[k]) == Some(ids[k])
  {
    if names == [] then []
    else
      var init := names[..|names| - 1];
      var last := names[|names| - 1];
      MeasureIds(init) + (match MeasureId(last) case Some(id) => [id] case None => [])
  }

  datatype ShapeError =
    /** `columns[-3]` of a table with fewer than three columns raises IndexError. */
    TooFewColumns

  /** `_get_denominator`: the third column from the end. */
  function Denominator(columns: seq<string>): (r: Result<string, ShapeError>)
    ensures r.Ok? <==> |columns| >= 3
    ensures r.Ok? ==> r.value == columns[|columns| - 3]
  {
    if |columns| >= 3 then Ok(columns[|columns| - 3]) else Err(TooFewColumns)
  }

  /** `_get_group_by`: every column before the last four, in order (so
      none when there are four or fewer). */
  function GroupBy(columns: seq<string>): (g: seq<string>)
    ensures |columns| <= 4 ==> g == []
    ensures |columns| > 4 ==> g + columns[|columns| - 4..] == columns
  {
    if |columns| <= 4 then [] else columns[..|columns| - 4]
  }

  /** The layout the measures framework writes, recovered from positions alone: the
      group-by columns, then one column, the denominator, and two more. With the
      distinct column names that `read_csv` produces, the denominator is never a
      group-by column. */
  lemma ColumnRoles(columns: seq<string>)
    requires |columns| >= 4
    ensures var n := |columns|;
      columns == GroupBy(columns) + [columns[n - 4], Denominator(columns).value, columns[n - 2], columns[n - 1]]
    ensures Distinct(columns) ==> Denominator(columns).value !in GroupBy(columns)
  {
    var n := |columns|;
    assert columns[n - 4..] == [columns[n - 4], columns[n - 3], columns[n - 2], columns[n - 1]];
    if Distinct(columns) && n > 4 {
      forall k | 0 <= k < |GroupBy(columns)| ensures GroupBy(columns)[k] != columns[n - 3] {
        assert GroupBy(columns)[k] == columns[k];
      }
    }
  }

  /** The measure a recognised file describes: the attributes `get_measure_tables`
      attaches to the table. */
  datatype Measure = Measure(id: string, denominator: string, groupBy: seq<string>)

  /** One pass of `get_measure_tables` without the CSV read: None for a file that is
      skipped, an error for a recognised table too narrow to have a denominator. */
  function MeasureAttributes(name: string, columns: seq<string>): (r: Result<Option<Measure>, ShapeError>)
    ensures r == Ok(None) <==> !IsMeasureFile(name)
    ensures r.Err? <==> IsMeasureFile(name) && |columns| < 3
    ensures r.Ok? && r.value.Some? ==>
      Some(r.value.value.id) == MeasureId(name)
      && r.value.value.denominator == columns[|columns| - 3]
      && r.value.value.groupBy == GroupBy(columns)
  {
    match MeasureId(name)
    case None => Ok(None)
    case Some(id) =>
      match Denominator(columns)
      case Err(e) => Err(e)
      case Ok(den) => Ok(Some(Measure(id, den, GroupBy(columns))))
  }

  /** `drop_zero_denominator_rows`: the rows whose denominator is greater than 0 (a
      missing denominator fails the comparison), in order and renumbered from 0. */
  function DropZeroDenominatorRows<T>(rows: seq<T>, denominator: T -> Option<int>): (r: seq<T>)
    ensures KeepsExactly(rows, r, x => denominator(x).Some? && denominator(x).value > 0)
    ensures forall k :: 0 <= k < |r| ==> denominator(r[k]).Some? && denominator(r[k]).value > 0
  {
    Filter(rows, x => denominator(x).Some? && denominator(x).value > 0)
  }

  /** The test in `get_group_chart`: one ungrouped line when the measure has no
      group-by columns or its id contains "total"; otherwise one line per group. */
  function SingleLine(groupBy: seq<string>, id: string): (b: bool)
    ensures b <==> groupBy == [] || exists i :: OccursAt(id, "total", i)
  {
    |groupBy| == 0 || Contains(id, "total")
  }

  lemma SingleLineExamples()
    ensures SingleLine(["practice"], "ast_reg_total_rate")
    ensures !SingleLine(["sex"], "sex")
    ensures SingleLine([], "sex")
  {
    assert OccursAt("ast_reg_total_rate", "total", 8);
    FirstCharAbsent("sex", "total");
  }

  /** The image name `main` writes for a measure. */
  function ChartFilename(id: string): (f: string)
    ensures |f| == |id| + 16
    ensures f[..12] == "group_chart_" && f[|f| - 4..] == ".png" && f[12..|f| - 4] == id
  {
    "group_chart_" + id + ".png"
  }

  /** Different measures are written to different files. */
  lemma ChartFilenameInjective(a: string, b: string)
    requires ChartFilename(a) == ChartFilename(b)
    ensures a == b
  {
    var f := ChartFilename(a);
    assert a == f[12..|f| - 4];
  }
}
