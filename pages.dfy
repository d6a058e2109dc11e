/** One runner's results page, as `process_url` in src/data/Optimized.py and
    src/data/make_dataset.py reads it (the two functions are the same text).
    The page's tables are grids of cell texts; the function rejects a page
    by returning nothing, and otherwise gives three views of the runner's
    splits: race time, minutes per mile and miles per hour. */
module Pages {
  import opened Seqs
  import opened Frames

  /** A table of a page: rows of cell texts, every row `width` cells wide. */
  datatype Grid = Grid(width: nat, rows: seq<seq<string>>)

  predicate Shaped(g: Grid) {
    forall k :: 0 <= k < |g.rows| ==> |g.rows[k]| == g.width
  }

  /** `pd.read_html` always yields rectangular tables. */
  type PageTable = g: Grid | Shaped(g) witness Grid(0, [])

  datatype Runner = Runner(name: string, bib: string)

  /** One view of an accepted page: the runner rows, then one column per
      kept split, headed by the split label. */
  datatype Splits = Splits(runners: seq<Runner>, labels: seq<string>, values: seq<string>)

  /** The three views of an accepted page. */
  datatype Views = Views(raceTime: Splits, minMile: Splits, milesPerHour: Splits)

  const Dash: string := "-"
  const Star: string := "*"
  const MinSplitRows: nat := 14
  const MinColumns: nat := 6
  const DroppedRows: set<nat> := {7, 8, 10, 11, 13}
  const RaceTimeColumn: nat := 2
  const MinMileColumn: nat := 4
  const MilesPerHourColumn: nat := 5

  /** `pd.DataFrame({'name': tables[0].iloc[0, :], 'bib': tables[0].iloc[2, :]}).drop(0)`:
      one runner per column of the header table but the first. */
  function Runners(header: PageTable): (rs: seq<Runner>)
    requires |header.rows| >= 3 && header.width >= 1
    ensures |rs| == header.width - 1
    ensures forall c :: 0 <= c < |rs| ==> rs[c] == Runner(header.rows[0][c + 1], header.rows[2][c + 1])
  {
    seq(header.width - 1, c requires 0 <= c < header.width - 1 => Runner(header.rows[0][c + 1], header.rows[2][c + 1]))
  }

  /** `'-' in df['name'].values`. */
  predicate NameIsDash(rs: seq<Runner>) {
    exists i :: 0 <= i < |rs| && rs[i].name == Dash
  }

  /** `'-' in df_times.values`. */
  predicate CellIsDash(g: Grid) {
    exists k, c :: 0 <= k < |g.rows| && 0 <= c < |g.rows[k]| && g.rows[k][c] == Dash
  }

  /** Some of the first fourteen split labels (column 0) contains '*'. */
  predicate StarredLabel(g: PageTable)
    requires g.width >= 1
  {
    exists k :: 0 <= k < MinSplitRows && k < |g.rows| && Contains(g.rows[k][0], Star)
  }

  /** The position in the times table of the x-th row left after
      `drop([7, 8, 10, 11, 13])`. */
  function KeptPosition(x: nat): nat {
    if x < 7 then x else if x == 7 then 9 else if x == 8 then 12 else x + 5
  }

  /** `df_times.drop([7, 8, 10, 11, 13])` on a table of at least fourteen rows. */
  function DropSplitRows<T>(rows: seq<T>): (r: seq<T>)
    requires |rows| >= MinSplitRows
  {
    rows[..7] + [rows[9], rows[12]] + rows[14..]
  }

  /** The drop loses exactly the rows at positions 7, 8, 10, 11 and 13 and
      keeps every other row, in order. */
  lemma DropSplitRowsExact<T>(rows: seq<T>)
    requires |rows| >= MinSplitRows
    ensures |DropSplitRows(rows)| == |rows| - |DroppedRows|
    ensures forall x :: 0 <= x < |DropSplitRows(rows)| ==>
      KeptPosition(x) < |rows| && KeptPosition(x) !in DroppedRows && DropSplitRows(rows)[x] == rows[KeptPosition(x)]
    ensures forall x, y :: 0 <= x < y < |DropSplitRows(rows)| ==> KeptPosition(x) < KeptPosition(y)
    ensures forall k :: 0 <= k < |rows| && k !in DroppedRows ==>
      exists x :: 0 <= x < |DropSplitRows(rows)| && KeptPosition(x) == k
  {
    assert |DroppedRows| == 5 by {
      assert DroppedRows == {7} + {8} + {10} + {11} + {13};
    }
    var r := DropSplitRows(rows);
    forall x | 0 <= x < |r| ensures r[x] == rows[KeptPosition(x)] {
      if x >= 9 {
        assert r[x] == rows[14..][x - 9];
      }
    }
    forall k | 0 <= k < |rows| && k !in DroppedRows ensures exists x :: 0 <= x < |r| && KeptPosition(x) == k {
      if k < 7 {
        assert KeptPosition(k) == k;
      } else if k == 9 {
        assert KeptPosition(7) == k;
      } else if k == 12 {
        assert KeptPosition(8) == k;
      } else {
        assert KeptPosition(k - 5) == k;
      }
    }
  }

  /** `df_times.iloc[:, [0, c]].T`, headed by its first row and joined to
      the runner rows. */
  function View(runners: seq<Runner>, kept: seq<seq<string>>, c: nat): (v: Splits)
    requires forall x :: 0 <= x < |kept| ==> c < |kept[x]| && 0 < |kept[x]|
    ensures v.runners == runners && |v.labels| == |v.values| == |kept|
    ensures forall x :: 0 <= x < |kept| ==> v.labels[x] == kept[x][0] && v.values[x] == kept[x][c]
  {
    Splits(runners, seq(|kept|, x requires 0 <= x < |kept| => kept[x][0]), seq(|kept|, x requires 0 <= x < |kept| => kept[x][c]))
  }

  /** The accessors that raise before any check: `tables[0]`, its rows 0
      and 2, the label 0 dropped from the runner rows, and `tables[3]`. */
  predicate Readable(tables: seq<PageTable>) {
    |tables| >= 4 && |tables[0].rows| >= 3 && tables[0].width >= 1
  }

  /** `process_url`: `Err` where pandas raises, `Ok(None)` for the three
      Nones of a rejected page, `Ok(Some(views))` for an accepted page. */
  function ProcessUrl(tables: seq<PageTable>): (r: Result<Option<Views>>)
    // the accessors that raise
    ensures |tables| == 0 || (|tables[0].rows| < 3) ==> r == Err(IndexError)
    ensures |tables| > 0 && |tables[0].rows| >= 3 && tables[0].width == 0 ==> r == Err(KeyError("0"))
    ensures r.Err? <==> (!Readable(tables) ||
      (!NameIsDash(Runners(tables[0])) && !CellIsDash(tables[3]) && tables[3].width == 0))
    // the three rejection rules
    ensures r == Ok(None) <==> (Readable(tables) &&
      (NameIsDash(Runners(tables[0])) || CellIsDash(tables[3]) ||
       (tables[3].width >= 1 &&
        (|tables[3].rows| < MinSplitRows || StarredLabel(tables[3]) || tables[3].width < MinColumns))))
    // what an accepted page yields
    ensures r.Ok? && r.value.Some? ==>
      && |tables[3].rows| >= MinSplitRows && tables[3].width >= MinColumns
      && r.value.value.raceTime.runners == r.value.value.minMile.runners == r.value.value.milesPerHour.runners
         == Runners(tables[0])
      && r.value.value.raceTime.labels == r.value.value.minMile.labels == r.value.value.milesPerHour.labels
      && |r.value.value.raceTime.labels| == |tables[3].rows| - |DroppedRows|
      && |r.value.value.raceTime.values| == |r.value.value.minMile.values| == |r.value.value.milesPerHour.values|
         == |r.value.value.raceTime.labels|
      && forall x :: 0 <= x < |r.value.value.raceTime.labels| ==>
           && KeptPosition(x) < |tables[3].rows|
           && r.value.value.raceTime.labels[x] == tables[3].rows[KeptPosition(x)][0]
           && r.value.value.raceTime.values[x] == tables[3].rows[KeptPosition(x)][RaceTimeColumn]
           && r.value.value.minMile.values[x] == tables[3].rows[KeptPosition(x)][MinMileColumn]
           && r.value.value.milesPerHour.values[x] == tables[3].rows[KeptPosition(x)][MilesPerHourColumn]
  {
    if |tables| == 0 || |tables[0].rows| < 3 then Err(IndexError)
    else if tables[0].width == 0 then Err(KeyError("0"))
    else if |tables| < 4 then Err(IndexError)
    else
      var runners := Runners(tables[0]);
      var times := tables[3];
      if NameIsDash(runners) || CellIsDash(times) then Ok(None)
      else if times.width == 0 then Err(IndexError)
      else if |times.rows| < MinSplitRows || StarredLabel(times) then Ok(None)
      else if times.width < MinColumns then Ok(None)
      else
        var kept := DropSplitRows(times.rows);
        DropSplitRowsExact(times.rows);
        assert forall x :: 0 <= x < |kept| ==> |kept[x]| == times.width by {
          forall x | 0 <= x < |kept| ensures |kept[x]| == times.width {
            assert kept[x] == times.rows[KeptPosition(x)];
          }
        }
        Ok(Some(Views(View(runners, kept, RaceTimeColumn), View(runners, kept, MinMileColumn),
                      View(runners, kept, MilesPerHourColumn))))
  }

  /** A page the function accepts. */
  predicate Accepted(tables: seq<PageTable>) {
    ProcessUrl(tables).Ok? && ProcessUrl(tables).value.Some?
  }

  /** The accept rule in one statement: readable tables, no '-' name or
      time cell, at least fourteen split rows, none of the first fourteen
      labels starred, and at least six columns. */
  lemma AcceptedIff(tables: seq<PageTable>)
    ensures Accepted(tables) <==>
      && Readable(tables)
      && !NameIsDash(Runners(tables[0])) && !CellIsDash(tables[3])
      && |tables[3].rows| >= MinSplitRows && tables[3].width >= MinColumns
      && !StarredLabel(tables[3])
  {
  }
}
