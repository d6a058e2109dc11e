/** The analysis script src/visualization/optimize.py: its constants, the
    percent-table fix, the shoe-table fix with the "Question Mark" filter,
    the merge, the grouping pass with its single threshold, and the guards
    of the mixed-model routine. */
module Optimize {
  import opened Seqs
  import opened Frames
  import opened Grouping
  import Pace

  const IncludeQuestionMarks: bool := false
  const MinimumRunners: nat := 20
  const SignificanceLevel: real := 0.05
  const CheckpointDistances: seq<string> := ["0K", "5K", "10K", "15K", "20K", "25K", "30K", "35K", "40K", "Finish"]
  const CheckpointMeters: seq<int> := [0, 5000, 10000, 15000, 20000, 25000, 30000, 35000, 40000, 42200]
  const QuestionMark: string := "Question Mark"
  const ZeroColumn: string := "0K"

  /** The column order `fix_percents` selects. */
  const PercentColumns: seq<string> :=
    ["bib", "name", "0K", "5K", "10K", "15K", "20K", "25K", "30K", "35K", "40K", "Finish Net"]

  const ShoeFamilies: seq<Family> := [
    Family("Adios Family", ["adios"]),
    Family("Vaporfly Family", ["vaporfly"]),
    Family("Alphafly Family", ["alphafly"]),
    Family("Saucony Family", ["saucony"]),
    Family("Hoka Family", ["hoka"]),
    Family("Asics Family", ["asics"])
  ]

  /** Ten checkpoints on both axes, the metres starting at the start line and
      strictly increasing; past the start they are the distances of the
      pace tables, and the selected percent columns line up with them. */
  lemma CheckpointAxes()
    ensures |CheckpointDistances| == |CheckpointMeters| == 10
    ensures CheckpointMeters[0] == 0
    ensures forall i, j :: 0 <= i < j < |CheckpointMeters| ==> CheckpointMeters[i] < CheckpointMeters[j]
    ensures CheckpointMeters[1..] == Pace.Distances
    ensures |PercentColumns| == 2 + |CheckpointMeters| && Distinct(PercentColumns)
    ensures PercentColumns[2..] == [ZeroColumn] + Pace.Checkpoints
    ensures forall k :: 0 <= k < 9 ==> PercentColumns[2 + k] == CheckpointDistances[k]
  {
  }

  /** Every family is named after one of its own keywords and the names are distinct. */
  lemma ShoeFamiliesWellFormed()
    ensures WellFormedFamilies(ShoeFamilies)
  {
    forall i | 0 <= i < |ShoeFamilies| ensures Matches(ShoeFamilies[i].name, ShoeFamilies[i]) {
      ShoeFamilyNamed(i);
    }
    ShoeFamilyNamesDistinct();
  }

  lemma ShoeFamilyNamesDistinct()
    ensures forall i, j :: 0 <= i < j < |ShoeFamilies| ==> ShoeFamilies[i].name != ShoeFamilies[j].name
  {
  }

  lemma ShoeFamilyNamed(i: nat)
    requires i < |ShoeFamilies|
    ensures Matches(ShoeFamilies[i].name, ShoeFamilies[i])
  {
    if i < 3 {
      EarlyFamilyNamed(i);
    } else {
      LateFamilyNamed(i);
    }
  }

  lemma EarlyFamilyNamed(i: nat)
    requires i < 3
    ensures Matches(ShoeFamilies[i].name, ShoeFamilies[i])
  {
    if i == 0 {
      assert Lower("Adios Family")[..5] == "adios";
      NamedAfterKeyword(ShoeFamilies[0], "adios");
    } else if i == 1 {
      assert Lower("Vaporfly Family")[..8] == "vaporfly";
      NamedAfterKeyword(ShoeFamilies[1], "vaporfly");
    } else {
      assert Lower("Alphafly Family")[..8] == "alphafly";
      NamedAfterKeyword(ShoeFamilies[2], "alphafly");
    }
  }

  lemma LateFamilyNamed(i: nat)
    requires 3 <= i < |ShoeFamilies|
    ensures Matches(ShoeFamilies[i].name, ShoeFamilies[i])
  {
    if i == 3 {
      assert Lower("Saucony Family")[..7] == "saucony";
      NamedAfterKeyword(ShoeFamilies[3], "saucony");
    } else if i == 4 {
      assert Lower("Hoka Family")[..4] == "hoka";
      NamedAfterKeyword(ShoeFamilies[4], "hoka");
    } else {
      assert Lower("Asics Family")[..5] == "asics";
      NamedAfterKeyword(ShoeFamilies[5], "asics");
    }
  }

  /** `fix_percents` (optimize.py:66-72): `data['0K'] = 0` writes a zero
      column into the caller's table, then the twelve profile columns are
      selected into a new frame (a KeyError when one is absent). */
  method FixPercents(t: Table) returns (r: Result<Frame>)
    requires Valid(t.frame)
    modifies t
    ensures t.frame == SetColumn(old(t.frame), ZeroColumn, seq(|old(t.frame).rows|, _ => Int(0)))
    ensures r.Ok? <==> forall c :: c in PercentColumns ==> c in old(t.frame).columns || c == ZeroColumn
    ensures r.Ok? ==> Valid(r.value) && r.value.columns == PercentColumns && |r.value.rows| == |old(t.frame).rows|
    ensures r.Ok? ==> forall k :: 0 <= k < |r.value.rows| ==> r.value.rows[k][ZeroColumn] == Int(0)
    ensures r.Ok? ==> forall k, c :: 0 <= k < |r.value.rows| && c in PercentColumns && c != ZeroColumn ==>
      r.value.rows[k][c] == old(t.frame).rows[k][c]
  {
    var data := t.frame;
    t.frame := SetColumn(data, ZeroColumn, seq(|data.rows|, _ => Int(0)));
    assert Distinct(PercentColumns) by { CheckpointAxes(); }
    r := SelectColumns(t.frame, PercentColumns);
  }

  /** The rows whose label is kept by the filter. */
  predicate NoQuestionMark(r: Row)
    requires LabelColumn in r && r[LabelColumn].Text?
  {
    !Contains(r[LabelColumn].s, QuestionMark)
  }

  /** Every row of `f` has a text label. */
  predicate TextLabels(f: Frame) {
    forall k :: 0 <= k < |f.rows| ==> LabelColumn in f.rows[k] && f.rows[k][LabelColumn].Text?
  }

  function KeepRow(r: Row): bool {
    LabelColumn in r && r[LabelColumn].Text? && NoQuestionMark(r)
  }

  /** Some row of `f` has a text label. */
  predicate SomeTextLabel(f: Frame) {
    exists k :: 0 <= k < |f.rows| && LabelColumn in f.rows[k] && f.rows[k][LabelColumn].Text?
  }

  /** `fix_shoe_choices` (optimize.py:76-84): repair the shoe table, then keep
      the rows whose label does not contain "Question Mark". The `.str`
      accessor raises `AttributeError` on a column without any text; in a
      column mixing text and other cells `str.contains` yields NaN for the
      others, and `~` on that NaN raises `TypeError`. */
  function FixShoeChoices(data: Frame): (r: Result<Frame>)
    requires Valid(data)
    ensures RepairShoeTable(data).Err? ==> r == RepairShoeTable(data)
    ensures RepairShoeTable(data).Ok? && !SomeTextLabel(RepairShoeTable(data).value) ==> r == Err(AttributeError)
    ensures RepairShoeTable(data).Ok? && SomeTextLabel(RepairShoeTable(data).value) && !TextLabels(RepairShoeTable(data).value) ==>
      r == Err(TypeError)
    ensures RepairShoeTable(data).Ok? && TextLabels(RepairShoeTable(data).value) ==>
      && r.Ok?
      && Valid(r.value) && r.value.columns == ShoeTableColumns
      && r.value.rows == Filter(RepairShoeTable(data).value.rows, KeepRow)
      && (forall k :: 0 <= k < |r.value.rows| ==>
            r.value.rows[k][LabelColumn].Text? && !Contains(r.value.rows[k][LabelColumn].s, QuestionMark))
      && (forall k :: 0 <= k < |RepairShoeTable(data).value.rows| && NoQuestionMark(RepairShoeTable(data).value.rows[k]) ==>
            RepairShoeTable(data).value.rows[k] in r.value.rows)
  {
    var repaired := RepairShoeTable(data);
    if repaired.Err? then repaired
    else if IncludeQuestionMarks then repaired
    else if !SomeTextLabel(repaired.value) then Err(AttributeError)
    else if !TextLabels(repaired.value) then Err(TypeError)
    else
      KeptShoeRows(repaired.value);
      Ok(FilterRows(repaired.value, KeepRow))
  }

  /** The kept rows are the labelled rows without "Question Mark", and each
      such row is kept. */
  lemma KeptShoeRows(t: Frame)
    requires TextLabels(t)
    ensures forall k :: 0 <= k < |Filter<Row>(t.rows, KeepRow)| ==> KeepRow(Filter<Row>(t.rows, KeepRow)[k])
    ensures forall k :: 0 <= k < |t.rows| && NoQuestionMark(t.rows[k]) ==> t.rows[k] in Filter<Row>(t.rows, KeepRow)
  {
    var kept := Filter<Row>(t.rows, KeepRow);
    forall k | 0 <= k < |kept| ensures KeepRow(kept[k]) {
      assert kept[k] in kept;
    }
    forall k | 0 <= k < |t.rows| && NoQuestionMark(t.rows[k]) ensures t.rows[k] in kept {
      FilterKeeps(t.rows, KeepRow, t.rows[k]);
    }
  }

  /** The pace columns a summary averages: everything but label and bib. */
  function ValueColumns(data: Frame): seq<string> {
    Without(data.columns, [LabelColumn, BibColumn])
  }

  /** `calculate_trendline` can fit the mean curve of a group: `np.polyfit`
      raises `TypeError` unless there is one value column per entry of
      `CHECKPOINT_METERS`. */
  predicate FitsCheckpoints(data: Frame) {
    |ValueColumns(data)| == |CheckpointMeters|
  }

  /** `analyze_data` (optimize.py:148-188) without the plotting: the labels
      must be text (`shoe.lower()`), then families and unclaimed shoes are
      summarised when they reach `MINIMUM_RUNNERS` runners. Plotting a
      group first drops `shoeChoice` and `bib` (optimize.py:130), which
      raises `KeyError` without a bib column. Every group is fitted against
      the same ten metre marks, so the first drop or fit that raises is
      that of the first summarised group. */
  method AnalyzeData(data: Frame, shoeChoices: seq<Cell>) returns (r: Result<seq<Entry>>)
    requires GroupingInput(data, ValueColumns(data)) && Distinct(shoeChoices)
    ensures (exists i :: 0 <= i < |shoeChoices| && !shoeChoices[i].Text?) ==> r == Err(AttributeError)
    ensures LabelTexts(shoeChoices).Some? ==>
      var trendlines := Trendlines(data, LabelTexts(shoeChoices).value, ShoeFamilies, MinimumRunners, MinimumRunners, ValueColumns(data));
      if trendlines != [] && BibColumn !in data.columns then r == Err(KeyError(BibColumn))
      else if trendlines != [] && !FitsCheckpoints(data) then r == Err(TypeError)
      else r == Ok(trendlines)
    ensures r.Ok? ==> Distinct(Names(r.value))
  {
    var labels := LabelTexts(shoeChoices);
    if labels.None? {
      return Err(AttributeError);
    }
    ShoeFamiliesWellFormed();
    var trendlines := GroupShoes(data, labels.value, ShoeFamilies, MinimumRunners, MinimumRunners, ValueColumns(data));
    if trendlines != [] && BibColumn !in data.columns {
      return Err(KeyError(BibColumn));
    }
    if trendlines != [] && !FitsCheckpoints(data) {
      return Err(TypeError);
    }
    r := Ok(trendlines);
  }

  /** Analysis over a runner count: a family or label is summarised iff it
      has at least twenty runners, and its summary records that count. */
  lemma AnalysisThreshold(data: Frame, shoes: seq<string>)
    requires GroupingInput(data, ValueColumns(data))
    ensures forall i :: 0 <= i < |ShoeFamilies| && FamilyPasses(data, shoes, ShoeFamilies[i], MinimumRunners) ==>
      FamilyEntry(data, shoes, ShoeFamilies[i], ValueColumns(data)) in
        Trendlines(data, shoes, ShoeFamilies, MinimumRunners, MinimumRunners, ValueColumns(data))
    ensures forall x :: 0 <= x < |Trendlines(data, shoes, ShoeFamilies, MinimumRunners, MinimumRunners, ValueColumns(data))| ==>
      Trendlines(data, shoes, ShoeFamilies, MinimumRunners, MinimumRunners, ValueColumns(data))[x].summary.n >= MinimumRunners
  {
    var cols := ValueColumns(data);
    FamilyEntriesExact(data, shoes, ShoeFamilies, MinimumRunners, cols);
    ShoeEntriesExact(data, shoes, ShoeFamilies, MinimumRunners, cols);
    var fe: seq<Entry> := FamilyEntries(data, shoes, ShoeFamilies, MinimumRunners, cols);
    var se: seq<Entry> := ShoeEntries(data, shoes, ShoeFamilies, MinimumRunners, cols);
    forall x | 0 <= x < |fe + se| ensures (fe + se)[x].summary.n >= MinimumRunners {
      if x < |fe| {
        assert IsFamilyEntry(fe[x], data, shoes, ShoeFamilies, MinimumRunners, cols);
      } else {
        assert (fe + se)[x] == se[x - |fe|];
        assert IsShoeEntry(se[x - |fe|], data, shoes, ShoeFamilies, MinimumRunners, cols);
      }
    }
  }

  // ---------------------------------------------------------------------
  // The mixed-model routine
  // ---------------------------------------------------------------------

  /** Why `run_linear_mixed_model` returned None. */
  datatype LmmSkip =
    | EmptyInput          // the frame has no rows or no columns
    | NoCheckpointColumns // none of the requested columns is present
    | MeltFailed          // an id column (bib, ShoeFamily) is missing
    | NoObservations      // no numeric pace value remains after dropping NaN
    | NameErrorTreatment  // the reference-family path uses an undefined name
    | NameErrorSmf        // the model fit uses an undefined name

  datatype LmmResult = Fitted | Skipped(reason: LmmSkip)

  const FamilyColumn: string := "ShoeFamily"

  /** Row `k` yields a melted observation that survives
      `to_numeric(errors='coerce')` and `dropna`. */
  predicate Observed(data: Frame, valueVars: seq<string>, k: int) {
    0 <= k < |data.rows| &&
      exists j :: 0 <= j < |valueVars| && valueVars[j] in data.rows[k] && IsNumber(data.rows[k][valueVars[j]])
  }

  predicate HasObservation(data: Frame, valueVars: seq<string>) {
    exists k :: 0 <= k < |data.rows| && Observed(data, valueVars, k)
  }

  /** The family occurs among the surviving observations, where the
      reference family is looked up. */
  predicate FamilyPresent(data: Frame, valueVars: seq<string>, family: string) {
    exists k :: 0 <= k < |data.rows| && Observed(data, valueVars, k) && FamilyColumn in data.rows[k] && data.rows[k][FamilyColumn] == Text(family)
  }

  /** The routine's guards in order (optimize.py:222-307). Whatever the
      input it never returns a fitted model: the reference-family branch
      and the fit both use names the module never defines, and the handlers
      turn those errors into None. */
  function LinearMixedModel(data: Frame, checkpointCols: seq<string>, refFamily: Option<string>): (o: LmmResult)
    requires Valid(data)
    ensures o.Skipped?
    ensures (|data.rows| == 0 || |data.columns| == 0) <==> o == Skipped(EmptyInput)
    ensures o == Skipped(NoCheckpointColumns) <==>
      |data.rows| > 0 && |data.columns| > 0 && forall c :: c in checkpointCols ==> c !in data.columns
    ensures o == Skipped(NameErrorSmf) ==>
      (refFamily.None? || refFamily == Some("") ||
       !FamilyPresent(data, Filter(checkpointCols, c => c in data.columns), refFamily.value))
  {
    var valueVars := Filter(checkpointCols, c => c in data.columns);
    if |data.rows| == 0 || |data.columns| == 0 then Skipped(EmptyInput)
    else if valueVars == [] then
      assert forall c :: c in checkpointCols ==> c !in data.columns by {
        forall c | c in checkpointCols && c in data.columns ensures false {
          FilterKeeps(checkpointCols, c => c in data.columns, c);
        }
      }
      Skipped(NoCheckpointColumns)
    else
      assert valueVars[0] in valueVars;
      if BibColumn !in data.columns || FamilyColumn !in data.columns then Skipped(MeltFailed)
    else if !HasObservation(data, valueVars) then Skipped(NoObservations)
    else if refFamily.Some? && refFamily.value != "" && FamilyPresent(data, valueVars, refFamily.value) then Skipped(NameErrorTreatment)
    else Skipped(NameErrorSmf)
  }
}
