/** The shoe-choice bookkeeping shared by the two analysis scripts
    (src/visualization/optimize.py and src/visualization/visualize.py):
    repairing the tagged shoe table, the inner join on bib, the list of
    distinct labels, and the grouping of runners into shoe families and
    individual shoes with one summary per group. */
module Grouping {
  import opened Seqs
  import opened Frames

  const BibColumn: string := "bib"
  const LastNameColumn: string := "LastName"
  const LabelColumn: string := "shoeChoice"
  const NameColumn: string := "name"
  /** The headings the repaired shoe table receives. */
  const ShoeTableColumns: seq<string> := [BibColumn, LastNameColumn, LabelColumn]

  // ---------------------------------------------------------------------
  // Repairing the shoe table
  // ---------------------------------------------------------------------

  /** `pd.concat([data, data.loc[[0]]], ignore_index=True)` followed by
      `data.columns = ['bib', 'LastName', 'shoeChoice']`: a copy of the first
      row is appended and the three columns are relabelled. An empty table
      has no row labelled 0 (KeyError); a table that is not three columns
      wide cannot take the three names (length mismatch). */
  function RepairShoeTable(t: Frame): (r: Result<Frame>)
    requires Valid(t)
    ensures |t.rows| == 0 ==> r == Err(KeyError("0"))
    ensures |t.rows| > 0 && |t.columns| != 3 ==> r == Err(LengthMismatch)
    ensures r.Ok? <==> |t.rows| > 0 && |t.columns| == 3
    ensures r.Ok? ==> Valid(r.value) && r.value.columns == ShoeTableColumns
    ensures r.Ok? ==> |r.value.rows| == |t.rows| + 1
    ensures r.Ok? ==> forall k, j :: 0 <= k < |t.rows| && 0 <= j < 3 ==>
      r.value.rows[k][ShoeTableColumns[j]] == t.rows[k][t.columns[j]]
    ensures r.Ok? ==> r.value.rows[|t.rows|] == r.value.rows[0]
  {
    if |t.rows| == 0 then Err(KeyError("0"))
    else
      var appended := Frame(t.columns, t.rows + [t.rows[0]]);
      assert Valid(appended) by {
        forall k | 0 <= k < |appended.rows| ensures appended.rows[k].Keys == Labels(t.columns) {
          assert appended.rows[k] == if k < |t.rows| then t.rows[k] else t.rows[0];
        }
      }
      assert forall k :: 0 <= k < |t.rows| ==> appended.rows[k] == t.rows[k];
      assert appended.rows[|t.rows|] == appended.rows[0];
      Rename(appended, ShoeTableColumns)
  }

  // ---------------------------------------------------------------------
  // The inner join on bib
  // ---------------------------------------------------------------------

  /** A frame with a bib column that `astype(str)` can convert as modelled
      (floating-point bib values are not modelled). */
  predicate ConvertibleBibs(f: Frame) {
    Valid(f) && BibColumn in f.columns && StrConvertible(f.rows, BibColumn)
  }

  /** `f['bib'].astype(str)` at row `k`. */
  function BibOf(f: Frame, k: nat): string
    requires ConvertibleBibs(f) && k < |f.rows|
  {
    ColumnText(f.rows, BibColumn, k)
  }

  /** A frame whose bib column holds text in every row. */
  predicate TextBibs(f: Frame) {
    Valid(f) && BibColumn in f.columns && forall k :: 0 <= k < |f.rows| ==> f.rows[k][BibColumn].Text?
  }

  /** `f['bib'].astype(str)` written back into the bib column: text stays,
      an integer prints in decimal, followed by ".0" when a missing bib
      makes the column a float column, and a missing bib prints "nan". */
  function BibsAsText(f: Frame): (g: Frame)
    requires ConvertibleBibs(f)
    ensures TextBibs(g) && g.columns == f.columns && |g.rows| == |f.rows|
    ensures forall k :: 0 <= k < |f.rows| ==> g.rows[k][BibColumn] == Text(BibOf(f, k))
    ensures forall k, c :: 0 <= k < |f.rows| && c in f.rows[k] && c != BibColumn ==> g.rows[k][c] == f.rows[k][c]
  {
    SetColumn(f, BibColumn, seq(|f.rows|, k requires 0 <= k < |f.rows| => Text(BibOf(f, k))))
  }

  /** Converting bibs that are already text changes nothing, so converting
      the same frame twice is converting it once. */
  lemma BibsAsTextIdempotent(f: Frame)
    requires TextBibs(f)
    ensures ConvertibleBibs(f) && BibsAsText(f) == f
  {
    var g := BibsAsText(f);
    forall k | 0 <= k < |f.rows| ensures g.rows[k] == f.rows[k] {
      RowsAgree(g.rows[k], f.rows[k], f.columns);
    }
  }

  /** The join criterion of `merge(..., on='bib')` after `astype(str)`
      (optimize.py:88-89), stated on the source rows: two converted bibs
      match exactly when their text forms are equal, so an integer bib of
      an integer column and the same number written as text join. */
  lemma BibsMatchAsText(f: Frame, k: nat, g: Frame, m: nat)
    requires ConvertibleBibs(f) && ConvertibleBibs(g) && k < |f.rows| && m < |g.rows|
    ensures BibsAsText(f).rows[k][BibColumn] == BibsAsText(g).rows[m][BibColumn]
        <==> BibOf(f, k) == BibOf(g, m)
  {
  }

  /** A missing bib anywhere in an integer bib column makes it a float
      column, and then none of its integer bibs joins an integer bib of a
      table without missing bibs, even the same number. */
  lemma FloatBibsNeverJoinIntBibs(f: Frame, k: nat, g: Frame, m: nat)
    requires ConvertibleBibs(f) && ConvertibleBibs(g) && k < |f.rows| && m < |g.rows|
    requires FloatColumn(f.rows, BibColumn) && !FloatColumn(g.rows, BibColumn)
    requires f.rows[k][BibColumn].Int? && g.rows[m][BibColumn].Int?
    ensures BibOf(f, k) != BibOf(g, m)
  {
    FloatTextNotIntText(f.rows[k][BibColumn].i, g.rows[m][BibColumn].i);
  }

  /** The rows whose bib cell is `key`. */
  function BibIs(key: Cell): Row -> bool {
    r => BibColumn in r && r[BibColumn] == key
  }

  /** Two rows with the same bib cell. */
  predicate SameBib(l: Row, r: Row) {
    BibColumn in l && BibColumn in r && l[BibColumn] == r[BibColumn]
  }

  /** The right positions whose bib equals the bib of `l`, increasing. */
  function MatchesOf(l: Row, right: seq<Row>): (ks: seq<nat>)
    requires BibColumn in l
    ensures StrictlyIncreasing(ks)
    ensures forall j :: 0 <= j < |ks| ==> ks[j] < |right| && SameBib(l, right[ks[j]])
    ensures forall b :: 0 <= b < |right| && SameBib(l, right[b]) ==> b in ks
  {
    FilterIsSelection(right, BibIs(l[BibColumn]));
    Kept(right, BibIs(l[BibColumn]))
  }

  /** The (left, right) position pairs whose bibs are equal, left-major
      then right order: pandas' row order for an inner merge. */
  function JoinPairs(left: seq<Row>, right: seq<Row>): (ps: seq<(nat, nat)>)
    requires forall k :: 0 <= k < |left| ==> BibColumn in left[k]
    ensures forall x :: 0 <= x < |ps| ==>
      ps[x].0 < |left| && ps[x].1 < |right| && SameBib(left[ps[x].0], right[ps[x].1])
  {
    if left == [] then []
    else
      var a := |left| - 1;
      var ks := MatchesOf(left[a], right);
      var front := JoinPairs(left[..a], right);
      var back := PairsWith(a, ks);
      JoinPairsStep(left, right, front, back);
      front + back
  }

  /** The pairs of all but the last left row, followed by the last row's
      pairs, pair rows with equal bibs. */
  lemma JoinPairsStep(left: seq<Row>, right: seq<Row>, front: seq<(nat, nat)>, back: seq<(nat, nat)>)
    requires left != [] && forall k :: 0 <= k < |left| ==> BibColumn in left[k]
    requires forall x :: 0 <= x < |front| ==>
      front[x].0 < |left| - 1 && front[x].1 < |right| && SameBib(left[..|left| - 1][front[x].0], right[front[x].1])
    requires forall x :: 0 <= x < |back| ==>
      back[x].0 == |left| - 1 && back[x].1 < |right| && SameBib(left[|left| - 1], right[back[x].1])
    ensures forall x :: 0 <= x < |front + back| ==>
      (front + back)[x].0 < |left| && (front + back)[x].1 < |right| &&
      SameBib(left[(front + back)[x].0], right[(front + back)[x].1])
  {
    var ps := front + back;
    forall x | 0 <= x < |ps|
      ensures ps[x].0 < |left| && ps[x].1 < |right| && SameBib(left[ps[x].0], right[ps[x].1])
    {
      if x < |front| {
        assert ps[x] == front[x];
        assert left[..|left| - 1][front[x].0] == left[front[x].0];
      } else {
        assert ps[x] == back[x - |front|];
      }
    }
  }

  /** The left position `a` paired with each of the right positions `ks`. */
  function PairsWith(a: nat, ks: seq<nat>): (ps: seq<(nat, nat)>)
    ensures |ps| == |ks| && forall j :: 0 <= j < |ks| ==> ps[j] == (a, ks[j])
  {
    seq(|ks|, j requires 0 <= j < |ks| => (a, ks[j]))
  }

  /** Pairs strictly increase in (left, right) order, so none repeats. */
  predicate LexIncreasing(ps: seq<(nat, nat)>) {
    forall x, y :: 0 <= x < y < |ps| ==> ps[x].0 < ps[y].0 || (ps[x].0 == ps[y].0 && ps[x].1 < ps[y].1)
  }

  /** The join lists its pairs in left-major order, each at most once. */
  lemma {:induction false} JoinPairsOrdered(left: seq<Row>, right: seq<Row>)
    requires forall k :: 0 <= k < |left| ==> BibColumn in left[k]
    ensures LexIncreasing(JoinPairs(left, right))
  {
    if left != [] {
      var a := |left| - 1;
      JoinPairsOrdered(left[..a], right);
    }
  }

  /** Every (left, right) pair of rows with equal bibs occurs in the join. */
  lemma {:induction false} JoinPairsComplete(left: seq<Row>, right: seq<Row>)
    requires forall k :: 0 <= k < |left| ==> BibColumn in left[k]
    ensures forall a, b :: 0 <= a < |left| && 0 <= b < |right| && SameBib(left[a], right[b]) ==>
      (a, b) in JoinPairs(left, right)
  {
    if left != [] {
      var a := |left| - 1;
      var init := left[..a];
      JoinPairsComplete(init, right);
      forall a', b | 0 <= a' < |left| && 0 <= b < |right| && SameBib(left[a'], right[b])
        ensures (a', b) in JoinPairs(left, right)
      {
        if a' < a {
          assert left[a'] == init[a'];
          JoinPairsKeepsFront(left, right, (a', b));
        } else {
          JoinPairsLastRow(left, right, b);
        }
      }
    }
  }

  /** The pairs of all but the last left row are still in the join. */
  lemma JoinPairsKeepsFront(left: seq<Row>, right: seq<Row>, p: (nat, nat))
    requires forall k :: 0 <= k < |left| ==> BibColumn in left[k]
    requires left != [] && p in JoinPairs(left[..|left| - 1], right)
    ensures p in JoinPairs(left, right)
  {
  }

  /** The last left row is paired with every right row that has its bib. */
  lemma JoinPairsLastRow(left: seq<Row>, right: seq<Row>, b: nat)
    requires forall k :: 0 <= k < |left| ==> BibColumn in left[k]
    requires left != [] && b < |right| && SameBib(left[|left| - 1], right[b])
    ensures (|left| - 1, b) in JoinPairs(left, right)
  {
    var a := |left| - 1;
    var ks := MatchesOf(left[a], right);
    var back := PairsWith(a, ks);
    assert JoinPairs(left, right) == JoinPairs(left[..a], right) + back;
    var j :| 0 <= j < |ks| && ks[j] == b;
    assert back[j] == (a, b);
  }

  /** Two frames the merge can join: text bibs on both sides and no other
      column label in common (pandas would suffix shared labels). */
  predicate Joinable(left: Frame, right: Frame) {
    && TextBibs(left) && TextBibs(right)
    && forall c :: c in left.columns && c in right.columns ==> c == BibColumn
  }

  /** `pd.merge(left, right, on='bib', how='inner')`: one row per matching
      pair, holding the left row's cells and the right row's cells; the
      columns are the left columns followed by the right columns but bib. */
  function Merge(left: Frame, right: Frame): (m: Frame)
    requires Joinable(left, right)
    ensures Valid(m) && m.columns == left.columns + Without(right.columns, [BibColumn])
    ensures |m.rows| == |JoinPairs(left.rows, right.rows)|
    ensures forall x, c :: 0 <= x < |m.rows| && c in left.columns ==>
      m.rows[x][c] == left.rows[JoinPairs(left.rows, right.rows)[x].0][c]
    ensures forall x, c :: 0 <= x < |m.rows| && c in right.columns ==>
      m.rows[x][c] == right.rows[JoinPairs(left.rows, right.rows)[x].1][c]
  {
    var ps := JoinPairs(left.rows, right.rows);
    var rest := Without(right.columns, [BibColumn]);
    var rows := seq(|ps|, x requires 0 <= x < |ps| => MergedRow(left.rows[ps[x].0], right.rows[ps[x].1]));
    MergeColumns(left, right);
    MergeRows(left, right, ps, rows);
    Frame(left.columns + rest, rows)
  }

  /** One merged row: the left row's cells and the right row's cells but its bib. */
  function MergedRow(l: Row, r: Row): Row {
    l + (r - {BibColumn})
  }

  /** The merged columns are distinct and are the left labels and the right labels. */
  lemma MergeColumns(left: Frame, right: Frame)
    requires Joinable(left, right)
    ensures Distinct(left.columns + Without(right.columns, [BibColumn]))
    ensures Labels(left.columns + Without(right.columns, [BibColumn])) == Labels(left.columns) + (Labels(right.columns) - {BibColumn})
  {
    var rest := Without(right.columns, [BibColumn]);
    forall i, j | 0 <= i < |left.columns| && 0 <= j < |rest| ensures left.columns[i] != rest[j] {
      assert rest[j] in rest;
    }
    DistinctConcat(left.columns, rest);
    LabelsConcat(left.columns, rest);
    assert Labels(rest) == Labels(right.columns) - {BibColumn};
  }

  /** A merged row of a matching pair has the merged labels and the cells of both rows. */
  lemma MergedRowCells(left: Frame, right: Frame, l: Row, r: Row)
    requires Joinable(left, right) && SameBib(l, r)
    requires l.Keys == Labels(left.columns) && r.Keys == Labels(right.columns)
    ensures MergedRow(l, r).Keys == Labels(left.columns) + (Labels(right.columns) - {BibColumn})
    ensures forall c :: c in left.columns ==> MergedRow(l, r)[c] == l[c]
    ensures forall c :: c in right.columns ==> MergedRow(l, r)[c] == r[c]
  {
    forall c | c in right.columns ensures MergedRow(l, r)[c] == r[c] {
      if c != BibColumn {
        assert c !in left.columns;
      }
    }
  }

  lemma MergeRows(left: Frame, right: Frame, ps: seq<(nat, nat)>, rows: seq<Row>)
    requires Joinable(left, right) && ps == JoinPairs(left.rows, right.rows)
    requires |rows| == |ps| && forall x :: 0 <= x < |ps| ==> rows[x] == MergedRow(left.rows[ps[x].0], right.rows[ps[x].1])
    ensures forall x :: 0 <= x < |rows| ==> rows[x].Keys == Labels(left.columns) + (Labels(right.columns) - {BibColumn})
    ensures forall x, c :: 0 <= x < |rows| && c in left.columns ==> rows[x][c] == left.rows[ps[x].0][c]
    ensures forall x, c :: 0 <= x < |rows| && c in right.columns ==> rows[x][c] == right.rows[ps[x].1][c]
  {
    forall x | 0 <= x < |rows|
      ensures rows[x].Keys == Labels(left.columns) + (Labels(right.columns) - {BibColumn})
      ensures forall c :: c in left.columns ==> rows[x][c] == left.rows[ps[x].0][c]
      ensures forall c :: c in right.columns ==> rows[x][c] == right.rows[ps[x].1][c]
    {
      MergedRowCells(left, right, left.rows[ps[x].0], right.rows[ps[x].1]);
    }
  }

  /** Every merged row's bib occurs in both inputs, and every left/right pair
      with equal bibs yields a merged row. */
  lemma MergeMatchesBibs(left: Frame, right: Frame)
    requires Joinable(left, right)
    ensures var rows, ps := Merge(left, right).rows, JoinPairs(left.rows, right.rows);
      forall x :: 0 <= x < |rows| ==>
        BibColumn in rows[x] && rows[x][BibColumn] == left.rows[ps[x].0][BibColumn] == right.rows[ps[x].1][BibColumn]
    ensures forall a, b ::
      (0 <= a < |left.rows| && 0 <= b < |right.rows| && left.rows[a][BibColumn] == right.rows[b][BibColumn])
      ==> (a, b) in JoinPairs(left.rows, right.rows)
  {
    JoinPairsComplete(left.rows, right.rows);
  }

  /** The shoe table and the pace table can be merged as modelled. */
  predicate MergeInputs(shoeTable: Frame, paces: Frame) {
    && ConvertibleBibs(shoeTable) && ConvertibleBibs(paces)
    && forall c :: c in shoeTable.columns && c in paces.columns ==> c == BibColumn
  }

  /** The matched (shoe row, pace row) positions of the merge. */
  function BibPairs(shoeTable: Frame, paces: Frame): (ps: seq<(nat, nat)>)
    requires MergeInputs(shoeTable, paces)
    ensures forall x :: 0 <= x < |ps| ==> ps[x].0 < |shoeTable.rows| && ps[x].1 < |paces.rows|
  {
    JoinPairs(BibsAsText(shoeTable).rows, BibsAsText(paces).rows)
  }

  /** The merge step of both scripts (optimize.py:86-94, visualize.py:21-28):
      bibs become text on both sides, the tables are inner-joined on bib,
      and LastName and name are dropped; a KeyError when either is absent. */
  function MergeOnBib(shoeTable: Frame, paces: Frame): (r: Result<Frame>)
    requires MergeInputs(shoeTable, paces)
    ensures r.Ok? <==>
      && (LastNameColumn in shoeTable.columns || LastNameColumn in paces.columns)
      && (NameColumn in shoeTable.columns || NameColumn in paces.columns)
    ensures r.Ok? ==> Valid(r.value) && LastNameColumn !in r.value.columns && NameColumn !in r.value.columns
    ensures r.Ok? ==>
      r.value.columns == Without(shoeTable.columns + Without(paces.columns, [BibColumn]), [LastNameColumn, NameColumn])
    ensures r.Ok? ==> MergedRows(r.value, shoeTable, paces)
  {
    var left := BibsAsText(shoeTable);
    var right := BibsAsText(paces);
    assert Joinable(left, right);
    var m := Merge(left, right);
    var drop := [LastNameColumn, NameColumn];
    var r := DropColumns(m, drop);
    assert forall c :: c in m.columns <==> c in shoeTable.columns || (c in paces.columns && c != BibColumn);
    MergedCells(shoeTable, paces, m, drop);
    r
  }

  /** The rows of `d` are the merged pairs, in pair order: the x-th row
      holds the text bib shared by the two rows of the x-th pair, and each
      other column that came from one table holds that table's cell. */
  predicate MergedRows(d: Frame, shoeTable: Frame, paces: Frame)
    requires MergeInputs(shoeTable, paces)
  {
    && Valid(d) && |d.rows| == |BibPairs(shoeTable, paces)|
    && (forall x :: 0 <= x < |d.rows| ==>
         && BibColumn in d.rows[x]
         && d.rows[x][BibColumn] == Text(BibOf(shoeTable, BibPairs(shoeTable, paces)[x].0))
         && d.rows[x][BibColumn] == Text(BibOf(paces, BibPairs(shoeTable, paces)[x].1)))
    && (forall x, c :: 0 <= x < |d.rows| && c in d.columns && c in shoeTable.columns && c != BibColumn ==>
         d.rows[x][c] == shoeTable.rows[BibPairs(shoeTable, paces)[x].0][c])
    && (forall x, c :: 0 <= x < |d.rows| && c in d.columns && c in paces.columns && c != BibColumn ==>
         d.rows[x][c] == paces.rows[BibPairs(shoeTable, paces)[x].1][c])
  }

  lemma MergedCells(shoeTable: Frame, paces: Frame, m: Frame, drop: seq<string>)
    requires MergeInputs(shoeTable, paces) && BibColumn !in drop
    requires m == Merge(BibsAsText(shoeTable), BibsAsText(paces))
    ensures DropColumns(m, drop).Ok? ==> MergedRows(DropColumns(m, drop).value, shoeTable, paces)
  {
    if DropColumns(m, drop).Ok? {
      MergedBibs(shoeTable, paces, m, DropColumns(m, drop).value, drop);
      MergedShoeCells(shoeTable, paces, m, DropColumns(m, drop).value, drop);
      MergedPaceCells(shoeTable, paces, m, DropColumns(m, drop).value, drop);
    }
  }

  lemma MergedBibs(shoeTable: Frame, paces: Frame, m: Frame, d: Frame, drop: seq<string>)
    requires MergeInputs(shoeTable, paces) && BibColumn !in drop
    requires m == Merge(BibsAsText(shoeTable), BibsAsText(paces)) && DropColumns(m, drop) == Ok(d)
    ensures forall x :: 0 <= x < |m.rows| ==>
      && BibColumn in d.rows[x]
      && d.rows[x][BibColumn] == Text(BibOf(shoeTable, BibPairs(shoeTable, paces)[x].0))
      && d.rows[x][BibColumn] == Text(BibOf(paces, BibPairs(shoeTable, paces)[x].1))
  {
    var left := BibsAsText(shoeTable);
    var right := BibsAsText(paces);
    var ps := BibPairs(shoeTable, paces);
    forall x | 0 <= x < |m.rows|
      ensures BibColumn in d.rows[x]
      ensures d.rows[x][BibColumn] == Text(BibOf(shoeTable, ps[x].0))
      ensures d.rows[x][BibColumn] == Text(BibOf(paces, ps[x].1))
    {
      assert SameBib(left.rows[ps[x].0], right.rows[ps[x].1]);
      assert d.rows[x][BibColumn] == m.rows[x][BibColumn] == left.rows[ps[x].0][BibColumn];
    }
  }

  /** A column kept by a drop holds the cell it held before. */
  lemma DroppedCell(m: Frame, drop: seq<string>, d: Frame, x: nat, c: string)
    requires Valid(m) && DropColumns(m, drop) == Ok(d) && x < |m.rows| && c in d.columns
    ensures c in m.rows[x] && d.rows[x][c] == m.rows[x][c]
  {
    assert c !in Labels(drop);
  }

  lemma MergedShoeCells(shoeTable: Frame, paces: Frame, m: Frame, d: Frame, drop: seq<string>)
    requires MergeInputs(shoeTable, paces)
    requires m == Merge(BibsAsText(shoeTable), BibsAsText(paces)) && DropColumns(m, drop) == Ok(d)
    ensures forall x, c :: 0 <= x < |m.rows| && c in d.columns && c in shoeTable.columns && c != BibColumn ==>
      d.rows[x][c] == shoeTable.rows[BibPairs(shoeTable, paces)[x].0][c]
  {
    forall x: nat, c | x < |m.rows| && c in d.columns && c in shoeTable.columns && c != BibColumn {
      MergedShoeCell(shoeTable, paces, m, d, drop, x, c);
    }
  }

  lemma MergedShoeCell(shoeTable: Frame, paces: Frame, m: Frame, d: Frame, drop: seq<string>, x: nat, c: string)
    requires MergeInputs(shoeTable, paces)
    requires m == Merge(BibsAsText(shoeTable), BibsAsText(paces)) && DropColumns(m, drop) == Ok(d)
    requires x < |m.rows| && c in d.columns && c in shoeTable.columns && c != BibColumn
    ensures x < |d.rows| && c in d.rows[x] && c in shoeTable.rows[BibPairs(shoeTable, paces)[x].0]
    ensures d.rows[x][c] == shoeTable.rows[BibPairs(shoeTable, paces)[x].0][c]
  {
    var left := BibsAsText(shoeTable);
    var k := BibPairs(shoeTable, paces)[x].0;
    DroppedCell(m, drop, d, x, c);
    assert m.rows[x][c] == left.rows[k][c];
  }

  lemma MergedPaceCells(shoeTable: Frame, paces: Frame, m: Frame, d: Frame, drop: seq<string>)
    requires MergeInputs(shoeTable, paces)
    requires m == Merge(BibsAsText(shoeTable), BibsAsText(paces)) && DropColumns(m, drop) == Ok(d)
    ensures forall x, c :: 0 <= x < |m.rows| && c in d.columns && c in paces.columns && c != BibColumn ==>
      d.rows[x][c] == paces.rows[BibPairs(shoeTable, paces)[x].1][c]
  {
    forall x: nat, c | x < |m.rows| && c in d.columns && c in paces.columns && c != BibColumn {
      MergedPaceCell(shoeTable, paces, m, d, drop, x, c);
    }
  }

  lemma MergedPaceCell(shoeTable: Frame, paces: Frame, m: Frame, d: Frame, drop: seq<string>, x: nat, c: string)
    requires MergeInputs(shoeTable, paces)
    requires m == Merge(BibsAsText(shoeTable), BibsAsText(paces)) && DropColumns(m, drop) == Ok(d)
    requires x < |m.rows| && c in d.columns && c in paces.columns && c != BibColumn
    ensures x < |d.rows| && c in d.rows[x] && c in paces.rows[BibPairs(shoeTable, paces)[x].1]
    ensures d.rows[x][c] == paces.rows[BibPairs(shoeTable, paces)[x].1][c]
  {
    var right := BibsAsText(paces);
    var k := BibPairs(shoeTable, paces)[x].1;
    DroppedCell(m, drop, d, x, c);
    assert m.rows[x][c] == right.rows[k][c];
  }

  /** Every pair of rows whose bibs agree as text yields a merged row, and
      the merged rows follow the shoe table's order, each pair once. */
  lemma MergeOnBibPairs(shoeTable: Frame, paces: Frame)
    requires MergeInputs(shoeTable, paces)
    ensures forall a, b ::
      (0 <= a < |shoeTable.rows| && 0 <= b < |paces.rows| &&
       BibOf(shoeTable, a) == BibOf(paces, b))
      ==> (a, b) in BibPairs(shoeTable, paces)
    ensures LexIncreasing(BibPairs(shoeTable, paces))
  {
    var left := BibsAsText(shoeTable);
    var right := BibsAsText(paces);
    JoinPairsComplete(left.rows, right.rows);
    JoinPairsOrdered(left.rows, right.rows);
  }

  // ---------------------------------------------------------------------
  // Distinct labels
  // ---------------------------------------------------------------------

  /** `data['shoeChoice'].unique()`: every label of the column exactly once,
      in order of first appearance. */
  function ShoeChoices(data: Frame): (u: seq<Cell>)
    requires Valid(data) && LabelColumn in data.columns
    ensures forall k :: 0 <= k < |data.rows| ==> data.rows[k][LabelColumn] in u
    ensures forall i :: 0 <= i < |u| ==> u[i] in Column(data, LabelColumn)
    ensures Distinct(u)
    ensures forall a, b :: 0 <= a < b < |u| ==>
      FirstIndex(Column(data, LabelColumn), u[a]) < FirstIndex(Column(data, LabelColumn), u[b])
  {
    var col := Column(data, LabelColumn);
    UniqueFirstAppearance(col);
    Unique(col)
  }

  /** The labels as strings; `None` when one of them is not text, where the
      scripts' `shoe.lower()` raises. */
  function LabelTexts(cells: seq<Cell>): (r: Option<seq<string>>)
    ensures r.Some? <==> forall i :: 0 <= i < |cells| ==> cells[i].Text?
    ensures r.Some? ==> |r.value| == |cells| && forall i :: 0 <= i < |cells| ==> cells[i] == Text(r.value[i])
    ensures r.Some? && Distinct(cells) ==> Distinct(r.value)
  {
    if forall i :: 0 <= i < |cells| ==> cells[i].Text? then
      Some(seq(|cells|, i requires 0 <= i < |cells| => cells[i].s))
    else None
  }

  // ---------------------------------------------------------------------
  // Families and groups
  // ---------------------------------------------------------------------

  /** A named set of keywords; a label belongs to the family when its
      lower-case form contains one of them. */
  datatype Family = Family(name: string, keywords: seq<string>)

  predicate Matches(shoe: string, f: Family) {
    exists kw :: kw in f.keywords && Contains(Lower(shoe), kw)
  }

  function InFamily(f: Family): string -> bool {
    shoe => Matches(shoe, f)
  }

  /** The labels of one family, in label order. */
  function FamilyShoes(shoes: seq<string>, f: Family): seq<string> {
    Filter(shoes, InFamily(f))
  }

  /** Family membership is decided by that family's keywords alone: a label
      is in a family's list iff it is a label and matches a keyword, whatever
      the other families are, so one label can join several families. */
  lemma FamilyShoesExact(shoes: seq<string>, f: Family, shoe: string)
    ensures shoe in FamilyShoes(shoes, f) <==> shoe in shoes && exists kw :: kw in f.keywords && Contains(Lower(shoe), kw)
  {
    if shoe in shoes && Matches(shoe, f) {
      FilterKeeps(shoes, InFamily(f), shoe);
    }
  }

  /** Some family among `fams` matches the label. */
  predicate Claimed(shoe: string, fams: seq<Family>) {
    exists i :: 0 <= i < |fams| && Matches(shoe, fams[i])
  }

  /** `data[data['shoeChoice'] == shoe]`. */
  function LabelIs(shoe: string): Row -> bool {
    r => LabelColumn in r && r[LabelColumn] == Text(shoe)
  }

  function RowsWithLabel(data: Frame, shoe: string): seq<Row> {
    Filter(data.rows, LabelIs(shoe))
  }

  /** The rows of every label in `shoes`, label after label. */
  function GroupRows(data: Frame, shoes: seq<string>): (g: seq<Row>)
    ensures forall r :: r in g ==> r in data.rows
  {
    if shoes == [] then []
    else GroupRows(data, shoes[..|shoes| - 1]) + RowsWithLabel(data, shoes[|shoes| - 1])
  }

  /** A group's size is the sum of its labels' row counts. */
  function CountRows(data: Frame, shoes: seq<string>): nat {
    if shoes == [] then 0
    else CountRows(data, shoes[..|shoes| - 1]) + |RowsWithLabel(data, shoes[|shoes| - 1])|
  }

  lemma {:induction false} GroupSize(data: Frame, shoes: seq<string>)
    ensures |GroupRows(data, shoes)| == CountRows(data, shoes)
    ensures forall r :: r in GroupRows(data, shoes) ==> exists i :: 0 <= i < |shoes| && LabelIs(shoes[i])(r)
  {
    if shoes != [] {
      GroupSize(data, shoes[..|shoes| - 1]);
      forall r | r in GroupRows(data, shoes) ensures exists i :: 0 <= i < |shoes| && LabelIs(shoes[i])(r) {
        if r in GroupRows(data, shoes[..|shoes| - 1]) {
          var i :| 0 <= i < |shoes| - 1 && LabelIs(shoes[..|shoes| - 1][i])(r);
          assert shoes[..|shoes| - 1][i] == shoes[i];
        }
      }
    }
  }

  // ---------------------------------------------------------------------
  // Summaries
  // ---------------------------------------------------------------------

  predicate NumericRow(r: Row, cols: seq<string>) {
    forall j :: 0 <= j < |cols| ==> cols[j] in r && IsNumber(r[cols[j]])
  }

  predicate NumericRows(rows: seq<Row>, cols: seq<string>) {
    forall r :: r in rows ==> NumericRow(r, cols)
  }

  predicate NumericIn(rows: seq<Row>, c: string) {
    forall k :: 0 <= k < |rows| ==> c in rows[k] && IsNumber(rows[k][c])
  }

  function SumColumn(rows: seq<Row>, c: string): real
    requires NumericIn(rows, c)
  {
    if rows == [] then 0.0
    else SumColumn(rows[..|rows| - 1], c) + NumberValue(rows[|rows| - 1][c])
  }

  /** The column mean over a non-empty group. */
  function Mean(rows: seq<Row>, c: string): (m: real)
    requires |rows| > 0 && NumericIn(rows, c)
    ensures |rows| as real * m == SumColumn(rows, c)
  {
    SumColumn(rows, c) / |rows| as real
  }

  /** The sum of values that lie in [lo, hi] lies in [n lo, n hi]. */
  lemma {:induction false} SumBounds(rows: seq<Row>, c: string, lo: real, hi: real)
    requires NumericIn(rows, c)
    requires forall k :: 0 <= k < |rows| ==> lo <= NumberValue(rows[k][c]) <= hi
    ensures |rows| as real * lo <= SumColumn(rows, c) <= |rows| as real * hi
  {
    if rows != [] {
      SumBounds(rows[..|rows| - 1], c, lo, hi);
    }
  }

  /** Each mean lies between the smallest and the largest member value. */
  lemma MeanBounds(rows: seq<Row>, c: string, lo: real, hi: real)
    requires |rows| > 0 && NumericIn(rows, c)
    requires forall k :: 0 <= k < |rows| ==> lo <= NumberValue(rows[k][c]) <= hi
    ensures lo <= Mean(rows, c) <= hi
  {
    SumBounds(rows, c, lo, hi);
    var n := |rows| as real;
    assert n * lo <= SumColumn(rows, c) <= n * hi;
  }

  /** A group whose members all have the value `v` has mean `v`. */
  lemma MeanOfConstant(rows: seq<Row>, c: string, v: real)
    requires |rows| > 0 && NumericIn(rows, c)
    requires forall k :: 0 <= k < |rows| ==> NumberValue(rows[k][c]) == v
    ensures Mean(rows, c) == v
  {
    SumBounds(rows, c, v, v);
  }

  /** What a plotted group records: the mean curve (one entry per value
      column) and the number of runners. Slope, intercept and spread come
      from foreign numerics and are not modelled. */
  datatype Summary = Summary(meanCurve: seq<real>, n: nat)

  function Summarise(rows: seq<Row>, cols: seq<string>): (s: Summary)
    requires |rows| > 0 && NumericRows(rows, cols)
    ensures s.n == |rows| && |s.meanCurve| == |cols|
    ensures forall j :: 0 <= j < |cols| ==> NumericIn(rows, cols[j]) && s.meanCurve[j] == Mean(rows, cols[j])
  {
    forall j | 0 <= j < |cols| ensures NumericIn(rows, cols[j]) {
      forall k | 0 <= k < |rows| ensures cols[j] in rows[k] && IsNumber(rows[k][cols[j]]) {
        assert rows[k] in rows;
      }
    }
    Summary(seq(|cols|, j requires 0 <= j < |cols| => Mean(rows, cols[j])), |rows|)
  }

  /** One entry of the trendline dictionary. */
  datatype Entry = Entry(name: string, summary: Summary)

  function Names(es: seq<Entry>): (ns: seq<string>)
    ensures |ns| == |es| && forall k :: 0 <= k < |es| ==> ns[k] == es[k].name
  {
    seq(|es|, k requires 0 <= k < |es| => es[k].name)
  }

  /** `trendline_data[e.name] = e.summary`: replace the entry of that name
      in place, or append a new one. */
  function Put(es: seq<Entry>, e: Entry): (r: seq<Entry>)
    ensures e.name !in Names(es) ==> r == es + [e]
    ensures e.name in Names(es) ==> |r| == |es| && e in r && Names(r) == Names(es)
    ensures e.name in Names(es) ==> forall k :: 0 <= k < |es| ==>
      r[k] == if k == FirstIndex(Names(es), e.name) then e else es[k]
    ensures Distinct(Names(es)) ==> Distinct(Names(r))
    ensures Distinct(Names(es)) && e.name in Names(es) ==> forall k :: 0 <= k < |es| ==>
      r[k] == if es[k].name == e.name then e else es[k]
  {
    if e.name in Names(es) then
      var i := FirstIndex(Names(es), e.name);
      var r := es[i := e];
      assert r[i] == e;
      assert Names(r) == Names(es);
      assert Distinct(Names(es)) ==> forall k :: 0 <= k < |es| && es[k].name == e.name ==> k == i by {
        if Distinct(Names(es)) {
          forall k | 0 <= k < |es| && es[k].name == e.name ensures k == i {
            assert Names(es)[k] == Names(es)[i];
          }
        }
      }
      r
    else
      PutNewName(es, e);
      es + [e]
  }

  /** Appending an entry under a new name keeps the names distinct. */
  lemma PutNewName(es: seq<Entry>, e: Entry)
    requires e.name !in Names(es)
    ensures Distinct(Names(es)) ==> Distinct(Names(es + [e]))
  {
    assert Names(es + [e]) == Names(es) + [e.name];
  }

  // ---------------------------------------------------------------------
  // The grouping specification
  // ---------------------------------------------------------------------

  /** A family whose lowercase name starts with one of its keywords
      matches its own name. */
  lemma NamedAfterKeyword(f: Family, kw: string)
    requires kw in f.keywords && StartsWith(Lower(f.name), kw)
    ensures Matches(f.name, f)
  {
  }

  /** Families are distinctly named and each family's name matches its own
      keywords, so no unmatched label can carry a family's name. */
  predicate WellFormedFamilies(fams: seq<Family>) {
    && (forall i, j :: 0 <= i < j < |fams| ==> fams[i].name != fams[j].name)
    && forall i :: 0 <= i < |fams| ==> Matches(fams[i].name, fams[i])
  }

  /** Inputs of a grouping pass: summaries read numbers from `cols`. */
  predicate GroupingInput(data: Frame, cols: seq<string>) {
    Valid(data) && NumericRows(data.rows, cols)
  }

  /** A family is summarised when it has labels and at least `familyMin` runners. */
  predicate FamilyPasses(data: Frame, shoes: seq<string>, f: Family, familyMin: nat) {
    FamilyShoes(shoes, f) != [] && |GroupRows(data, FamilyShoes(shoes, f))| >= familyMin
  }

  function FamilyEntry(data: Frame, shoes: seq<string>, f: Family, cols: seq<string>): Entry
    requires GroupingInput(data, cols) && |GroupRows(data, FamilyShoes(shoes, f))| > 0
  {
    Entry(f.name, Summarise(GroupRows(data, FamilyShoes(shoes, f)), cols))
  }

  /** The family entries, in family order. */
  function FamilyEntries(data: Frame, shoes: seq<string>, fams: seq<Family>, familyMin: nat, cols: seq<string>): seq<Entry>
    requires GroupingInput(data, cols) && familyMin >= 1
  {
    if fams == [] then []
    else
      var f := fams[|fams| - 1];
      FamilyEntries(data, shoes, fams[..|fams| - 1], familyMin, cols) +
        (if FamilyPasses(data, shoes, f, familyMin) then [FamilyEntry(data, shoes, f, cols)] else [])
  }

  /** An unclaimed label is summarised on its own when it has at least `shoeMin` runners. */
  predicate ShoePasses(data: Frame, shoe: string, fams: seq<Family>, shoeMin: nat) {
    !Claimed(shoe, fams) && |RowsWithLabel(data, shoe)| >= shoeMin
  }

  function ShoeEntry(data: Frame, shoe: string, cols: seq<string>): Entry
    requires GroupingInput(data, cols) && |RowsWithLabel(data, shoe)| > 0
  {
    Entry(shoe, Summarise(RowsWithLabel(data, shoe), cols))
  }

  /** The individual-shoe entries, in label order. */
  function ShoeEntries(data: Frame, shoes: seq<string>, fams: seq<Family>, shoeMin: nat, cols: seq<string>): seq<Entry>
    requires GroupingInput(data, cols) && shoeMin >= 1
  {
    if shoes == [] then []
    else
      var s := shoes[|shoes| - 1];
      ShoeEntries(data, shoes[..|shoes| - 1], fams, shoeMin, cols) +
        (if ShoePasses(data, s, fams, shoeMin) then [ShoeEntry(data, s, cols)] else [])
  }

  /** One more label adds its entry when it passes. */
  lemma ShoeEntriesStep(data: Frame, shoes: seq<string>, fams: seq<Family>, j: nat, shoeMin: nat, cols: seq<string>)
    requires GroupingInput(data, cols) && shoeMin >= 1 && j < |shoes|
    ensures ShoeEntries(data, shoes[..j + 1], fams, shoeMin, cols) ==
      ShoeEntries(data, shoes[..j], fams, shoeMin, cols) +
        (if ShoePasses(data, shoes[j], fams, shoeMin) then [ShoeEntry(data, shoes[j], cols)] else [])
  {
    assert shoes[..j + 1][..j] == shoes[..j];
  }

  /** `e` summarises one of the passing families. */
  predicate IsFamilyEntry(e: Entry, data: Frame, shoes: seq<string>, fams: seq<Family>, familyMin: nat, cols: seq<string>)
    requires GroupingInput(data, cols) && familyMin >= 1
  {
    exists i :: 0 <= i < |fams| && FamilyPasses(data, shoes, fams[i], familyMin) && e == FamilyEntry(data, shoes, fams[i], cols)
  }

  /** `e` summarises one of the passing unclaimed labels. */
  predicate IsShoeEntry(e: Entry, data: Frame, shoes: seq<string>, fams: seq<Family>, shoeMin: nat, cols: seq<string>)
    requires GroupingInput(data, cols) && shoeMin >= 1
  {
    exists i :: 0 <= i < |shoes| && ShoePasses(data, shoes[i], fams, shoeMin) && e == ShoeEntry(data, shoes[i], cols)
  }

  /** The family entries are exactly the summaries of the passing families. */
  lemma FamilyEntriesExact(data: Frame, shoes: seq<string>, fams: seq<Family>, familyMin: nat, cols: seq<string>)
    requires GroupingInput(data, cols) && familyMin >= 1
    ensures forall x :: 0 <= x < |FamilyEntries(data, shoes, fams, familyMin, cols)| ==>
      IsFamilyEntry(FamilyEntries(data, shoes, fams, familyMin, cols)[x], data, shoes, fams, familyMin, cols)
    ensures forall i :: 0 <= i < |fams| && FamilyPasses(data, shoes, fams[i], familyMin) ==>
      FamilyEntry(data, shoes, fams[i], cols) in FamilyEntries(data, shoes, fams, familyMin, cols)
  {
    FamilyEntriesSound(data, shoes, fams, familyMin, cols);
    FamilyEntriesComplete(data, shoes, fams, familyMin, cols);
  }

  lemma {:induction false} FamilyEntriesSound(data: Frame, shoes: seq<string>, fams: seq<Family>, familyMin: nat, cols: seq<string>)
    requires GroupingInput(data, cols) && familyMin >= 1
    ensures forall x :: 0 <= x < |FamilyEntries(data, shoes, fams, familyMin, cols)| ==>
      IsFamilyEntry(FamilyEntries(data, shoes, fams, familyMin, cols)[x], data, shoes, fams, familyMin, cols)
  {
    if fams != [] {
      var init := fams[..|fams| - 1];
      var f := fams[|fams| - 1];
      FamilyEntriesSound(data, shoes, init, familyMin, cols);
      var front := FamilyEntries(data, shoes, init, familyMin, cols);
      var all := FamilyEntries(data, shoes, fams, familyMin, cols);
      forall x | 0 <= x < |all| ensures IsFamilyEntry(all[x], data, shoes, fams, familyMin, cols) {
        if x < |front| {
          assert all[x] == front[x];
          var i :| 0 <= i < |init| && FamilyPasses(data, shoes, init[i], familyMin) &&
            front[x] == FamilyEntry(data, shoes, init[i], cols);
          assert fams[i] == init[i];
        } else {
          assert all[x] == FamilyEntry(data, shoes, f, cols);
        }
      }
    }
  }

  lemma {:induction false} FamilyEntriesComplete(data: Frame, shoes: seq<string>, fams: seq<Family>, familyMin: nat, cols: seq<string>)
    requires GroupingInput(data, cols) && familyMin >= 1
    ensures forall i :: 0 <= i < |fams| && FamilyPasses(data, shoes, fams[i], familyMin) ==>
      FamilyEntry(data, shoes, fams[i], cols) in FamilyEntries(data, shoes, fams, familyMin, cols)
  {
    if fams != [] {
      var init, f := fams[..|fams| - 1], fams[|fams| - 1];
      FamilyEntriesComplete(data, shoes, init, familyMin, cols);
      var front := FamilyEntries(data, shoes, init, familyMin, cols);
      var back := if FamilyPasses(data, shoes, f, familyMin) then [FamilyEntry(data, shoes, f, cols)] else [];
      assert FamilyEntries(data, shoes, fams, familyMin, cols) == front + back;
      forall i | 0 <= i < |fams| && FamilyPasses(data, shoes, fams[i], familyMin)
        ensures FamilyEntry(data, shoes, fams[i], cols) in front + back
      {
        if i < |init| {
          assert fams[i] == init[i];
          assert FamilyEntry(data, shoes, init[i], cols) in front;
        } else {
          assert FamilyEntry(data, shoes, f, cols) in back;
        }
      }
    }
  }

  /** The shoe entries are exactly the summaries of the passing unclaimed labels. */
  lemma {:induction false} ShoeEntriesExact(data: Frame, shoes: seq<string>, fams: seq<Family>, shoeMin: nat, cols: seq<string>)
    requires GroupingInput(data, cols) && shoeMin >= 1
    ensures forall x :: 0 <= x < |ShoeEntries(data, shoes, fams, shoeMin, cols)| ==>
      IsShoeEntry(ShoeEntries(data, shoes, fams, shoeMin, cols)[x], data, shoes, fams, shoeMin, cols)
    ensures forall i :: 0 <= i < |shoes| && ShoePasses(data, shoes[i], fams, shoeMin) ==>
      ShoeEntry(data, shoes[i], cols) in ShoeEntries(data, shoes, fams, shoeMin, cols)
  {
    if shoes != [] {
      var init := shoes[..|shoes| - 1];
      ShoeEntriesExact(data, init, fams, shoeMin, cols);
      var front := ShoeEntries(data, init, fams, shoeMin, cols);
      var all := ShoeEntries(data, shoes, fams, shoeMin, cols);
      assert forall i :: 0 <= i < |init| ==> init[i] == shoes[i];
      forall x | 0 <= x < |all| ensures IsShoeEntry(all[x], data, shoes, fams, shoeMin, cols) {
        if x < |front| {
          assert all[x] == front[x];
          var i :| 0 <= i < |init| && ShoePasses(data, init[i], fams, shoeMin) &&
            front[x] == ShoeEntry(data, init[i], cols);
          assert shoes[i] == init[i];
        } else {
          assert ShoePasses(data, shoes[|shoes| - 1], fams, shoeMin);
          assert all[x] == ShoeEntry(data, shoes[|shoes| - 1], cols);
        }
      }
    }
  }

  /** A label claimed by any family never gets an entry of its own, even
      when every family claiming it fell below the family threshold. */
  lemma ClaimedNeverIndividual(data: Frame, shoes: seq<string>, fams: seq<Family>, shoeMin: nat, cols: seq<string>)
    requires GroupingInput(data, cols) && shoeMin >= 1
    ensures forall x :: 0 <= x < |ShoeEntries(data, shoes, fams, shoeMin, cols)| ==>
      !Claimed(ShoeEntries(data, shoes, fams, shoeMin, cols)[x].name, fams)
  {
    ShoeEntriesExact(data, shoes, fams, shoeMin, cols);
  }

  predicate IsFamilyName(n: string, fams: seq<Family>) {
    exists i :: 0 <= i < |fams| && fams[i].name == n
  }

  /** The family entries carry distinct family names, in family order. */
  lemma {:induction false} FamilyNamesDistinct(data: Frame, shoes: seq<string>, fams: seq<Family>, familyMin: nat, cols: seq<string>)
    requires GroupingInput(data, cols) && familyMin >= 1 && WellFormedFamilies(fams)
    ensures Distinct(Names(FamilyEntries(data, shoes, fams, familyMin, cols)))
    ensures forall x :: 0 <= x < |FamilyEntries(data, shoes, fams, familyMin, cols)| ==>
      IsFamilyName(FamilyEntries(data, shoes, fams, familyMin, cols)[x].name, fams)
  {
    if fams != [] {
      var init := fams[..|fams| - 1];
      var f := fams[|fams| - 1];
      assert WellFormedFamilies(init) by {
        assert forall i :: 0 <= i < |init| ==> init[i] == fams[i];
      }
      FamilyNamesDistinct(data, shoes, init, familyMin, cols);
      var front := FamilyEntries(data, shoes, init, familyMin, cols);
      forall x | 0 <= x < |front| ensures front[x].name != f.name {
        var i :| 0 <= i < |init| && front[x].name == init[i].name;
        assert init[i] == fams[i];
      }
      forall x | 0 <= x < |front| ensures IsFamilyName(front[x].name, fams) {
        var i :| 0 <= i < |init| && front[x].name == init[i].name;
        assert init[i] == fams[i];
      }
    }
  }

  /** Over distinct labels the individual entries carry distinct names. */
  lemma {:induction false} ShoeNamesDistinct(data: Frame, shoes: seq<string>, fams: seq<Family>, shoeMin: nat, cols: seq<string>)
    requires GroupingInput(data, cols) && shoeMin >= 1 && Distinct(shoes)
    ensures Distinct(Names(ShoeEntries(data, shoes, fams, shoeMin, cols)))
    ensures forall x :: 0 <= x < |ShoeEntries(data, shoes, fams, shoeMin, cols)| ==>
      ShoeEntries(data, shoes, fams, shoeMin, cols)[x].name in shoes
  {
    if shoes != [] {
      var init := shoes[..|shoes| - 1];
      var s := shoes[|shoes| - 1];
      assert Distinct(init) by {
        assert forall i :: 0 <= i < |init| ==> init[i] == shoes[i];
      }
      ShoeNamesDistinct(data, init, fams, shoeMin, cols);
      var front := ShoeEntries(data, init, fams, shoeMin, cols);
      forall x | 0 <= x < |front| ensures front[x].name != s {
        var i :| 0 <= i < |init| && init[i] == front[x].name;
        assert init[i] == shoes[i];
      }
    }
  }

  /** No family name is the name of an unclaimed label. */
  lemma FamilyAndShoeNamesDisjoint(data: Frame, shoes: seq<string>, fams: seq<Family>,
                                   familyMin: nat, shoeMin: nat, cols: seq<string>)
    requires GroupingInput(data, cols) && familyMin >= 1 && shoeMin >= 1 && WellFormedFamilies(fams)
    ensures forall x, y ::
      (0 <= x < |FamilyEntries(data, shoes, fams, familyMin, cols)| && 0 <= y < |ShoeEntries(data, shoes, fams, shoeMin, cols)|)
      ==> FamilyEntries(data, shoes, fams, familyMin, cols)[x].name != ShoeEntries(data, shoes, fams, shoeMin, cols)[y].name
  {
    FamilyNamesDistinct(data, shoes, fams, familyMin, cols);
    ClaimedNeverIndividual(data, shoes, fams, shoeMin, cols);
  }

  /** The whole dictionary: family entries then shoe entries, every name once. */
  function Trendlines(data: Frame, shoes: seq<string>, fams: seq<Family>, familyMin: nat, shoeMin: nat, cols: seq<string>): seq<Entry>
    requires GroupingInput(data, cols) && familyMin >= 1 && shoeMin >= 1
  {
    FamilyEntries(data, shoes, fams, familyMin, cols) + ShoeEntries(data, shoes, fams, shoeMin, cols)
  }

  lemma TrendlineNamesDistinct(data: Frame, shoes: seq<string>, fams: seq<Family>,
                               familyMin: nat, shoeMin: nat, cols: seq<string>)
    requires GroupingInput(data, cols) && familyMin >= 1 && shoeMin >= 1
    requires WellFormedFamilies(fams) && Distinct(shoes)
    ensures Distinct(Names(Trendlines(data, shoes, fams, familyMin, shoeMin, cols)))
  {
    var fe := FamilyEntries(data, shoes, fams, familyMin, cols);
    var se := ShoeEntries(data, shoes, fams, shoeMin, cols);
    FamilyNamesDistinct(data, shoes, fams, familyMin, cols);
    ShoeNamesDistinct(data, shoes, fams, shoeMin, cols);
    FamilyAndShoeNamesDisjoint(data, shoes, fams, familyMin, shoeMin, cols);
    DistinctConcat(Names(fe), Names(se));
    assert Names(fe + se) == Names(fe) + Names(se);
  }

  // ---------------------------------------------------------------------
  // The grouping pass
  // ---------------------------------------------------------------------

  /** The labels claimed by the families processed so far. */
  function ClaimedAmong(shoes: seq<string>, fams: seq<Family>): set<string> {
    set s | s in shoes && Claimed(s, fams)
  }

  /** Processing one more family claims exactly that family's labels. */
  lemma ClaimStep(shoes: seq<string>, fams: seq<Family>, i: nat)
    requires i < |fams|
    ensures ClaimedAmong(shoes, fams[..i + 1]) == ClaimedAmong(shoes, fams[..i]) + Labels(FamilyShoes(shoes, fams[i]))
  {
    forall s ensures s in ClaimedAmong(shoes, fams[..i + 1]) <==>
      s in ClaimedAmong(shoes, fams[..i]) || s in FamilyShoes(shoes, fams[i])
    {
      FamilyShoesExact(shoes, fams[i], s);
      if Claimed(s, fams[..i + 1]) {
        var j :| 0 <= j < i + 1 && Matches(s, fams[..i + 1][j]);
        assert fams[..i + 1][j] == fams[j];
        if j < i {
          assert fams[..i][j] == fams[j];
        }
      }
      if Claimed(s, fams[..i]) {
        var j :| 0 <= j < i && Matches(s, fams[..i][j]);
        assert fams[..i][j] == fams[..i + 1][j];
      }
      if Matches(s, fams[i]) {
        assert fams[..i + 1][i] == fams[i];
      }
    }
  }

  /** A family's name is not yet a key when that family is reached. */
  lemma FamilyNameFresh(data: Frame, shoes: seq<string>, fams: seq<Family>, i: nat, familyMin: nat, cols: seq<string>)
    requires GroupingInput(data, cols) && familyMin >= 1 && WellFormedFamilies(fams) && i < |fams|
    ensures fams[i].name !in Names(FamilyEntries(data, shoes, fams[..i], familyMin, cols))
  {
    var init := fams[..i];
    assert WellFormedFamilies(init) by {
      assert forall j :: 0 <= j < |init| ==> init[j] == fams[j];
    }
    FamilyNamesDistinct(data, shoes, init, familyMin, cols);
    var es := FamilyEntries(data, shoes, init, familyMin, cols);
    forall x | 0 <= x < |es| ensures es[x].name != fams[i].name {
      var j :| 0 <= j < |init| && init[j].name == es[x].name;
      assert init[j] == fams[j];
    }
  }

  /** An unclaimed label is not yet a key when the individual pass reaches it. */
  lemma ShoeNameFresh(data: Frame, shoes: seq<string>, fams: seq<Family>, j: nat,
                      familyMin: nat, shoeMin: nat, cols: seq<string>)
    requires GroupingInput(data, cols) && familyMin >= 1 && shoeMin >= 1
    requires WellFormedFamilies(fams) && Distinct(shoes) && j < |shoes| && !Claimed(shoes[j], fams)
    ensures shoes[j] !in Names(FamilyEntries(data, shoes, fams, familyMin, cols) +
                               ShoeEntries(data, shoes[..j], fams, shoeMin, cols))
  {
    var fe := FamilyEntries(data, shoes, fams, familyMin, cols);
    var earlier := ShoeEntries(data, shoes[..j], fams, shoeMin, cols);
    UnclaimedNotFamilyName(data, shoes, fams, familyMin, cols, shoes[j]);
    LaterShoeNotEarlierName(data, shoes, fams, j, shoeMin, cols);
    NamesAppend(fe, earlier);
  }

  lemma NamesAppend(a: seq<Entry>, b: seq<Entry>)
    ensures Names(a + b) == Names(a) + Names(b)
  {
  }

  /** No family entry is named after a label no family claims. */
  lemma UnclaimedNotFamilyName(data: Frame, shoes: seq<string>, fams: seq<Family>, familyMin: nat, cols: seq<string>, shoe: string)
    requires GroupingInput(data, cols) && familyMin >= 1 && WellFormedFamilies(fams) && !Claimed(shoe, fams)
    ensures shoe !in Names(FamilyEntries(data, shoes, fams, familyMin, cols))
  {
    var fe := FamilyEntries(data, shoes, fams, familyMin, cols);
    FamilyNamesDistinct(data, shoes, fams, familyMin, cols);
    forall x | 0 <= x < |fe| ensures fe[x].name != shoe {
      var f :| 0 <= f < |fams| && fams[f].name == fe[x].name;
      assert Matches(fams[f].name, fams[f]);
    }
  }

  /** With distinct labels, no entry of the earlier labels has the name of the next one. */
  lemma LaterShoeNotEarlierName(data: Frame, shoes: seq<string>, fams: seq<Family>, j: nat, shoeMin: nat, cols: seq<string>)
    requires GroupingInput(data, cols) && shoeMin >= 1 && Distinct(shoes) && j < |shoes|
    ensures shoes[j] !in Names(ShoeEntries(data, shoes[..j], fams, shoeMin, cols))
  {
    var earlier := ShoeEntries(data, shoes[..j], fams, shoeMin, cols);
    assert Distinct(shoes[..j]) by {
      assert forall y :: 0 <= y < j ==> shoes[..j][y] == shoes[y];
    }
    ShoeNamesDistinct(data, shoes[..j], fams, shoeMin, cols);
    forall x | 0 <= x < |earlier| ensures earlier[x].name != shoes[j] {
      var y :| 0 <= y < j && shoes[..j][y] == earlier[x].name;
      assert shoes[y] == earlier[x].name;
    }
  }

  /** One more family extends the family entries by its entry, if it passes. */
  lemma FamilyEntriesStep(data: Frame, shoes: seq<string>, fams: seq<Family>, i: nat, familyMin: nat, cols: seq<string>)
    requires GroupingInput(data, cols) && familyMin >= 1 && i < |fams|
    ensures FamilyEntries(data, shoes, fams[..i + 1], familyMin, cols) ==
      FamilyEntries(data, shoes, fams[..i], familyMin, cols) +
        (if FamilyPasses(data, shoes, fams[i], familyMin) then [FamilyEntry(data, shoes, fams[i], cols)] else [])
  {
    assert fams[..i + 1][..i] == fams[..i];
  }

  /** A family that does not pass leaves the family entries as they are. */
  lemma FamilyLoopSkip(data: Frame, shoes: seq<string>, fams: seq<Family>, i: nat, familyMin: nat, cols: seq<string>)
    requires GroupingInput(data, cols) && familyMin >= 1 && i < |fams|
    requires !FamilyPasses(data, shoes, fams[i], familyMin)
    ensures FamilyEntries(data, shoes, fams[..i + 1], familyMin, cols) == FamilyEntries(data, shoes, fams[..i], familyMin, cols)
  {
    FamilyEntriesStep(data, shoes, fams, i, familyMin, cols);
  }

  /** A family that passes is put under its own name, which is not yet a key,
      so the entry lands at the end. */
  lemma FamilyLoopPut(data: Frame, shoes: seq<string>, fams: seq<Family>, i: nat, familyMin: nat, cols: seq<string>)
    requires GroupingInput(data, cols) && familyMin >= 1 && WellFormedFamilies(fams) && i < |fams|
    requires FamilyPasses(data, shoes, fams[i], familyMin)
    ensures FamilyEntries(data, shoes, fams[..i + 1], familyMin, cols) ==
      Put(FamilyEntries(data, shoes, fams[..i], familyMin, cols), FamilyEntry(data, shoes, fams[i], cols))
  {
    FamilyEntriesStep(data, shoes, fams, i, familyMin, cols);
    FamilyNameFresh(data, shoes, fams, i, familyMin, cols);
  }

  /** One more label extends a group by that label's rows. */
  lemma GroupRowsStep(data: Frame, shoes: seq<string>, k: nat)
    requires k < |shoes|
    ensures GroupRows(data, shoes[..k + 1]) == GroupRows(data, shoes[..k]) + RowsWithLabel(data, shoes[k])
    ensures Labels(shoes[..k + 1]) == Labels(shoes[..k]) + {shoes[k]}
  {
    assert shoes[..k + 1][..k] == shoes[..k];
    assert shoes[..k + 1] == shoes[..k] + [shoes[k]];
    LabelsAppend(shoes[..k], shoes[k]);
  }

  /** One family's rows, label after label, with its labels added to the
      processed set (optimize.py:169-171). */
  method CollectFamily(data: Frame, familyShoes: seq<string>, processed: set<string>)
    returns (familyData: seq<Row>, claimed: set<string>)
    ensures familyData == GroupRows(data, familyShoes)
    ensures claimed == processed + Labels(familyShoes)
  {
    familyData := [];
    claimed := processed;
    for k := 0 to |familyShoes|
      invariant familyData == GroupRows(data, familyShoes[..k])
      invariant claimed == processed + Labels(familyShoes[..k])
    {
      var shoe := familyShoes[k];
      GroupRowsStep(data, familyShoes, k);
      familyData := familyData + RowsWithLabel(data, shoe);
      claimed := claimed + {shoe};
    }
    assert familyShoes[..|familyShoes|] == familyShoes;
  }

  /** The family loop of the grouping pass (optimize.py:158-175,
      visualize.py:50-69). For each family with labels, rows are collected
      label by label and the labels are marked processed; the family is
      summarised when it reaches `familyMin` rows. */
  method GroupFamilies(data: Frame, shoes: seq<string>, families: seq<Family>, familyMin: nat, cols: seq<string>)
    returns (trendlines: seq<Entry>, processed: set<string>)
    requires GroupingInput(data, cols) && familyMin >= 1 && WellFormedFamilies(families)
    ensures trendlines == FamilyEntries(data, shoes, families, familyMin, cols)
    ensures processed == ClaimedAmong(shoes, families)
  {
    trendlines := [];
    processed := {};
    for i := 0 to |families|
      invariant trendlines == FamilyEntries(data, shoes, families[..i], familyMin, cols)
      invariant processed == ClaimedAmong(shoes, families[..i])
    {
      var family := families[i];
      var familyShoes := FamilyShoes(shoes, family);
      ClaimStep(shoes, families, i);
      if familyShoes == [] {
        FamilyLoopSkip(data, shoes, families, i, familyMin, cols);
        continue;
      }
      var familyData;
      familyData, processed := CollectFamily(data, familyShoes, processed);
      if |familyData| >= familyMin {
        FamilyLoopPut(data, shoes, families, i, familyMin, cols);
        trendlines := Put(trendlines, Entry(family.name, Summarise(familyData, cols)));
      } else {
        FamilyLoopSkip(data, shoes, families, i, familyMin, cols);
      }
    }
    assert families[..|families|] == families;
  }

  /** The whole grouping pass (optimize.py:158-183, visualize.py:50-77):
      the family loop, then every label not processed by it is summarised
      on its own when it reaches `shoeMin` rows. */
  method GroupShoes(data: Frame, shoes: seq<string>, families: seq<Family>,
                    familyMin: nat, shoeMin: nat, cols: seq<string>)
    returns (trendlines: seq<Entry>)
    requires GroupingInput(data, cols) && familyMin >= 1 && shoeMin >= 1
    requires WellFormedFamilies(families) && Distinct(shoes)
    ensures trendlines == Trendlines(data, shoes, families, familyMin, shoeMin, cols)
    ensures Distinct(Names(trendlines))
  {
    var processed;
    trendlines, processed := GroupFamilies(data, shoes, families, familyMin, cols);
    ghost var familyPart := trendlines;
    for j := 0 to |shoes|
      invariant trendlines == familyPart + ShoeEntries(data, shoes[..j], families, shoeMin, cols)
    {
      var shoe := shoes[j];
      ShoeEntriesStep(data, shoes, families, j, shoeMin, cols);
      if shoe !in processed {
        var shoeData := RowsWithLabel(data, shoe);
        if |shoeData| >= shoeMin {
          ShoeNameFresh(data, shoes, families, j, familyMin, shoeMin, cols);
          trendlines := Put(trendlines, Entry(shoe, Summarise(shoeData, cols)));
        }
      }
    }
    assert shoes[..|shoes|] == shoes;
    TrendlineNamesDistinct(data, shoes, families, familyMin, shoeMin, cols);
  }
}
