/** A small model of the tabular values the pipeline passes around: a frame is
    an ordered list of column labels and a sequence of rows, each row a map
    from column label to cell. The operations are the handful of pandas
    operations the scripts use, with pandas' error cases as `Err` results. */
module Frames {
  import opened Seqs

  datatype Option<+T> = None | Some(value: T)

  /** The exceptions pandas or Python raise on the paths the scripts take. */
  datatype Error =
    | KeyError(key: string)   // a column or row label that is not present
    | IndexError                // positional access past the end
    | LengthMismatch            // a new column list of the wrong length
    | AttributeError            // a string method called on a non-string
    | ValueError(text: string)  // a text that does not parse as required
    | TypeError                 // an operation on a value of the wrong type
    | LinAlgError               // a least-squares fit that does not converge

  datatype Result<+T> = Ok(value: T) | Err(error: Error)

  /** One cell: text, an integer, a float, or NaN. */
  datatype Cell = Text(s: string) | Int(i: int) | Real(x: real) | Missing

  predicate IsNumber(c: Cell) {
    c.Int? || c.Real?
  }

  function NumberValue(c: Cell): real
    requires IsNumber(c)
  {
    if c.Int? then c.i as real else c.x
  }

  type Row = map<string, Cell>

  datatype Frame = Frame(columns: seq<string>, rows: seq<Row>)

  function Labels(cs: seq<string>): set<string> {
    set c | c in cs
  }

  /** Column labels are distinct and every row has exactly those labels. */
  predicate Valid(f: Frame) {
    && Distinct(f.columns)
    && forall k :: 0 <= k < |f.rows| ==> f.rows[k].Keys == Labels(f.columns)
  }

  lemma LabelsAppend(cs: seq<string>, c: string)
    ensures Labels(cs + [c]) == Labels(cs) + {c}
  {
    assert forall x :: x in cs + [c] <==> x in cs || x == c;
  }

  lemma LabelsConcat(a: seq<string>, b: seq<string>)
    ensures Labels(a + b) == Labels(a) + Labels(b)
  {
    assert forall x :: x in a + b <==> x in a || x in b;
  }

  /** Two rows with the labels `cs` that agree on every label of `cs` are equal. */
  lemma RowsAgree(r1: Row, r2: Row, cs: seq<string>)
    requires r1.Keys == Labels(cs) == r2.Keys
    requires forall j :: 0 <= j < |cs| ==> r1[cs[j]] == r2[cs[j]]
    ensures r1 == r2
  {
    forall c | c in r1 ensures r1[c] == r2[c] {
      var j :| 0 <= j < |cs| && cs[j] == c;
    }
  }

  /** `df[c] = values`: overwrite column `c`, or add it as the last column. */
  function SetColumn(f: Frame, c: string, values: seq<Cell>): (g: Frame)
    requires Valid(f) && |values| == |f.rows|
    ensures Valid(g) && |g.rows| == |f.rows|
    ensures g.columns == if c in f.columns then f.columns else f.columns + [c]
    ensures forall k :: 0 <= k < |f.rows| ==> g.rows[k] == f.rows[k][c := values[k]]
  {
    LabelsAppend(f.columns, c);
    Frame(if c in f.columns then f.columns else f.columns + [c],
          seq(|f.rows|, k requires 0 <= k < |f.rows| => f.rows[k][c := values[k]]))
  }

  /** The values of column `c`, top to bottom. */
  function Column(f: Frame, c: string): (vs: seq<Cell>)
    requires Valid(f) && c in f.columns
    ensures |vs| == |f.rows| && forall k :: 0 <= k < |f.rows| ==> vs[k] == f.rows[k][c]
  {
    seq(|f.rows|, k requires 0 <= k < |f.rows| => f.rows[k][c])
  }

  /** The first label of `want` that is not among `have`. */
  function FirstMissing(want: seq<string>, have: seq<string>): (m: Option<string>)
    ensures m.None? <==> forall c :: c in want ==> c in have
    ensures m.Some? ==> m.value in want && m.value !in have
  {
    if want == [] then None
    else if want[0] !in have then Some(want[0])
    else FirstMissing(want[1..], have)
  }

  function Without(cs: seq<string>, drop: seq<string>): (r: seq<string>)
    ensures forall c :: c in r <==> c in cs && c !in drop
    ensures Distinct(cs) ==> Distinct(r)
  {
    if cs == [] then []
    else
      var rest := Without(cs[1..], drop);
      assert forall c :: c in cs <==> c == cs[0] || c in cs[1..];
      if cs[0] in drop then rest else [cs[0]] + rest
  }

  /** `df.drop(columns=drop)`: raises `KeyError` when a label is absent. */
  function DropColumns(f: Frame, drop: seq<string>): (r: Result<Frame>)
    requires Valid(f)
    ensures r.Ok? <==> forall c :: c in drop ==> c in f.columns
    ensures r.Ok? ==> Valid(r.value) && r.value.columns == Without(f.columns, drop)
    ensures r.Ok? ==> |r.value.rows| == |f.rows|
    ensures r.Ok? ==> forall k :: 0 <= k < |f.rows| ==> r.value.rows[k] == f.rows[k] - Labels(drop)
  {
    match FirstMissing(drop, f.columns)
    case Some(c) => Err(KeyError(c))
    case None =>
      var cols := Without(f.columns, drop);
      assert Labels(cols) == Labels(f.columns) - Labels(drop);
      Ok(Frame(cols, seq(|f.rows|, k requires 0 <= k < |f.rows| => f.rows[k] - Labels(drop))))
  }

  /** Dropping `a` and then `b` (no label in both) is dropping `a + b`, with
      the same error for the first label missing. */
  lemma DropInSequence(f: Frame, a: seq<string>, b: seq<string>)
    requires Valid(f)
    requires forall c :: c in a ==> c !in b
    ensures DropColumns(f, a).Ok? ==> DropColumns(DropColumns(f, a).value, b) == DropColumns(f, a + b)
    ensures DropColumns(f, a).Err? ==> DropColumns(f, a + b) == DropColumns(f, a)
  {
    FirstMissingConcat(a, b, f.columns);
    if DropColumns(f, a).Ok? {
      var g := DropColumns(f, a).value;
      FirstMissingSame(b, g.columns, f.columns);
      if FirstMissing(b, f.columns).None? {
        DropBothOk(f, a, b);
      }
    }
  }

  lemma DropBothOk(f: Frame, a: seq<string>, b: seq<string>)
    requires Valid(f) && FirstMissing(a, f.columns).None? && FirstMissing(b, f.columns).None?
    requires forall c :: c in a ==> c !in b
    ensures DropColumns(f, a).Ok? && DropColumns(DropColumns(f, a).value, b) == DropColumns(f, a + b)
  {
    var g := DropColumns(f, a).value;
    FirstMissingSame(b, g.columns, f.columns);
    var h := DropColumns(g, b).value;
    var e := DropColumns(f, a + b).value;
    LabelsConcat(a, b);
    WithoutConcat(f.columns, a, b);
    forall k | 0 <= k < |f.rows| ensures h.rows[k] == e.rows[k] {
      RemoveTwice(f.rows[k], Labels(a), Labels(b));
    }
    assert h.rows == e.rows;
  }

  lemma RemoveTwice(m: Row, a: set<string>, b: set<string>)
    ensures (m - a) - b == m - (a + b)
  {
  }

  lemma {:induction false} FirstMissingConcat(a: seq<string>, b: seq<string>, have: seq<string>)
    ensures FirstMissing(a + b, have) == if FirstMissing(a, have).Some? then FirstMissing(a, have) else FirstMissing(b, have)
  {
    if a != [] {
      assert (a + b)[1..] == a[1..] + b;
      FirstMissingConcat(a[1..], b, have);
    } else {
      assert a + b == b;
    }
  }

  /** The first missing label depends only on which wanted labels are present. */
  lemma {:induction false} FirstMissingSame(want: seq<string>, h1: seq<string>, h2: seq<string>)
    requires forall c :: c in want ==> (c in h1 <==> c in h2)
    ensures FirstMissing(want, h1) == FirstMissing(want, h2)
  {
    if want != [] {
      FirstMissingSame(want[1..], h1, h2);
    }
  }

  lemma {:induction false} WithoutConcat(cs: seq<string>, a: seq<string>, b: seq<string>)
    ensures Without(Without(cs, a), b) == Without(cs, a + b)
  {
    if cs != [] {
      WithoutConcat(cs[1..], a, b);
    }
  }

  /** `df[cols]`: the named columns in the given order; `KeyError` when one is absent. */
  function SelectColumns(f: Frame, cols: seq<string>): (r: Result<Frame>)
    requires Valid(f) && Distinct(cols)
    ensures r.Ok? <==> forall c :: c in cols ==> c in f.columns
    ensures r.Ok? ==> Valid(r.value) && r.value.columns == cols && |r.value.rows| == |f.rows|
    ensures r.Ok? ==> forall k, c :: 0 <= k < |f.rows| && c in cols ==> r.value.rows[k][c] == f.rows[k][c]
  {
    match FirstMissing(cols, f.columns)
    case Some(c) => Err(KeyError(c))
    case None =>
      Ok(Frame(cols, seq(|f.rows|, k requires 0 <= k < |f.rows| => map c | c in Labels(cols) :: f.rows[k][c])))
  }

  /** `df.columns = names`: relabel positionally; `LengthMismatch` unless the
      number of names equals the number of columns. */
  function Rename(f: Frame, names: seq<string>): (r: Result<Frame>)
    requires Valid(f) && Distinct(names)
    ensures r.Ok? <==> |names| == |f.columns|
    ensures r.Ok? ==> Valid(r.value) && r.value.columns == names && |r.value.rows| == |f.rows|
    ensures r.Ok? ==> forall k, j :: 0 <= k < |f.rows| && 0 <= j < |names| ==>
      r.value.rows[k][names[j]] == f.rows[k][f.columns[j]]
  {
    if |names| != |f.columns| then Err(LengthMismatch)
    else
      var g := Frame(names, seq(|f.rows|, k requires 0 <= k < |f.rows| =>
        map n | n in Labels(names) :: f.rows[k][f.columns[FirstIndex(names, n)]]));
      assert forall j :: 0 <= j < |names| ==> FirstIndex(names, names[j]) == j;
      Ok(g)
  }

  /** Boolean-mask row selection `df[mask]`: the rows satisfying `keep`, in order. */
  function FilterRows(f: Frame, keep: Row -> bool): (g: Frame)
    requires Valid(f)
    ensures Valid(g) && g.columns == f.columns && g.rows == Filter(f.rows, keep)
  {
    var rows := Filter(f.rows, keep);
    assert forall k :: 0 <= k < |rows| ==> rows[k] in f.rows;
    Frame(f.columns, rows)
  }

  /** Python's ASCII case mapping for `str.lower`. */
  function LowerChar(ch: char): char {
    if 'A' <= ch <= 'Z' then (ch as int + 32) as char else ch
  }

  function Lower(s: string): (r: string)
    ensures |r| == |s| && forall i :: 0 <= i < |s| ==> r[i] == LowerChar(s[i])
  {
    seq(|s|, i requires 0 <= i < |s| => LowerChar(s[i]))
  }

  predicate StartsWith(s: string, prefix: string) {
    |prefix| <= |s| && s[..|prefix|] == prefix
  }

  /** Substring test: Python's `sub in s`. */
  predicate Contains(s: string, sub: string)
    decreases |s|
  {
    StartsWith(s, sub) || (|s| > 0 && Contains(s[1..], sub))
  }

  /** `Contains` finds `sub` exactly when it occurs at some position. */
  lemma {:induction false} ContainsAt(s: string, sub: string, i: nat)
    requires i + |sub| <= |s| && s[i..i + |sub|] == sub
    ensures Contains(s, sub)
  {
    if i > 0 {
      assert s[1..][i - 1..i - 1 + |sub|] == s[i..i + |sub|];
      ContainsAt(s[1..], sub, i - 1);
    }
  }

  /** Python's `s.split(sep)`: the pieces between the separators, in order. */
  function Split(s: string, sep: char): (r: seq<string>)
    ensures |r| >= 1 && forall k :: 0 <= k < |r| ==> sep !in r[k]
    decreases |s|
  {
    if sep !in s then [s]
    else
      var i := FirstIndex(s, sep);
      [s[..i]] + Split(s[i + 1..], sep)
  }

  /** A piece without the separator, followed by the separator, splits off
      as the first piece. */
  lemma SplitJoin(a: string, sep: char, b: string)
    requires sep !in a
    ensures Split(a + [sep] + b, sep) == [a] + Split(b, sep)
  {
    var s := a + [sep] + b;
    assert s[|a|] == sep;
    var i := FirstIndex(s, sep);
    assert s[..i] == a && s[i + 1..] == b;
  }

  /** Splitting at a separator splits both sides. */
  lemma {:induction false} SplitAppend(a: string, sep: char, b: string)
    ensures Split(a + [sep] + b, sep) == Split(a, sep) + Split(b, sep)
    decreases |a|, 1
  {
    if sep !in a {
      SplitJoin(a, sep, b);
    } else {
      SplitAppendAt(a, sep, b, FirstIndex(a, sep));
    }
  }

  /** The same, with the first separator of `a` at `i`. */
  lemma {:induction false} SplitAppendAt(a: string, sep: char, b: string, i: nat)
    requires i < |a| && a[i] == sep && sep !in a[..i]
    ensures Split(a + [sep] + b, sep) == Split(a, sep) + Split(b, sep)
    decreases |a|, 0
  {
    var s := a + [sep] + b;
    assert s[..i] == a[..i];
    SplitAt(s, sep, i);
    assert s[i + 1..] == a[i + 1..] + [sep] + b;
    SplitAt(a, sep, i);
    SplitAppend(a[i + 1..], sep, b);
    ConcatAssoc([a[..i]], Split(a[i + 1..], sep), Split(b, sep));
  }

  /** The first piece ends at the first separator, and the rest is split after it. */
  lemma SplitAt(s: string, sep: char, i: nat)
    requires i < |s| && s[i] == sep && sep !in s[..i]
    ensures Split(s, sep) == [s[..i]] + Split(s[i + 1..], sep)
  {
    FirstIndexAt(s, sep, i);
  }

  /** The first piece is a prefix of the text without the separator; it is
      the whole text when the separator does not occur. */
  lemma SplitFirst(s: string, sep: char)
    ensures StartsWith(s, Split(s, sep)[0]) && sep !in Split(s, sep)[0]
    ensures sep !in s ==> Split(s, sep) == [s]
  {
    if sep in s {
      var i := FirstIndex(s, sep);
      assert s[..i] == Split(s, sep)[0];
    }
  }

  predicate IsDigit(ch: char) {
    '0' <= ch <= '9'
  }

  predicate AllDigits(s: string) {
    forall i :: 0 <= i < |s| ==> IsDigit(s[i])
  }

  function DigitChar(d: nat): (ch: char)
    requires d < 10
    ensures IsDigit(ch)
  {
    (d + '0' as int) as char
  }

  /** Decimal rendering of a natural number, without leading zeros. */
  function NatToString(n: nat): (s: string)
    decreases n
  {
    (if n < 10 then [] else NatToString(n / 10)) + [DigitChar(n % 10)]
  }

  /** Python's `str(i)` for an integer. */
  function IntToString(i: int): string {
    if i < 0 then "-" + NatToString(-i) else NatToString(i)
  }

  /** The value of a string of decimal digits (empty denotes zero). */
  function DigitsValue(s: string): nat
    requires AllDigits(s)
  {
    if s == [] then 0
    else DigitsValue(s[..|s| - 1]) * 10 + (s[|s| - 1] as int - '0' as int)
  }

  /** Rendering a natural number and reading it back gives the number. */
  lemma {:induction false} NatToStringRoundTrip(n: nat)
    ensures |NatToString(n)| >= 1 && AllDigits(NatToString(n))
    ensures DigitsValue(NatToString(n)) == n
    decreases n
  {
    var s := NatToString(n);
    if n >= 10 {
      NatToStringRoundTrip(n / 10);
      assert s[..|s| - 1] == NatToString(n / 10);
    } else {
      assert s[..|s| - 1] == [];
    }
  }

  /** An optionally signed decimal text, as `IntToString` produces. */
  predicate IsIntText(s: string) {
    if |s| > 0 && s[0] == '-' then AllDigits(s[1..]) else AllDigits(s)
  }

  function IntOfText(s: string): int
    requires IsIntText(s)
  {
    if |s| > 0 && s[0] == '-' then -(DigitsValue(s[1..]) as int) else DigitsValue(s) as int
  }

  /** Rendering an integer and reading it back gives the integer. */
  lemma IntToStringRoundTrip(i: int)
    ensures IsIntText(IntToString(i)) && IntOfText(IntToString(i)) == i
  {
    if i < 0 {
      NegativeRoundTrip(i);
    } else {
      var t := NatToString(i);
      NatToStringRoundTrip(i);
      assert IntToString(i) == t;
      assert IsDigit(t[0]);
    }
  }

  lemma NegativeRoundTrip(i: int)
    requires i < 0
    ensures IsIntText(IntToString(i)) && IntOfText(IntToString(i)) == i
  {
    var t := NatToString(-i);
    NatToStringRoundTrip(-i);
    var s := IntToString(i);
    assert s == "-" + t;
    assert s[1..] == t;
  }

  /** Distinct integers render as distinct strings. */
  lemma IntToStringInjective(i: int, j: int)
    requires IntToString(i) == IntToString(j)
    ensures i == j
  {
    IntToStringRoundTrip(i);
    IntToStringRoundTrip(j);
  }

  /** The dtype `read_csv` gives a column: one that holds a missing cell
      and no text is stored as floating point, so its integers are floats. */
  predicate FloatColumn(rows: seq<Row>, col: string) {
    && (exists k :: 0 <= k < |rows| && col in rows[k] && rows[k][col].Missing?)
    && (forall k :: 0 <= k < |rows| && col in rows[k] ==> !rows[k][col].Text?)
  }

  /** 2^53: every integer up to this magnitude is a float exactly, and
      `str` prints it as its digits followed by ".0". */
  const MaxExactFloat: int := 0x20_0000_0000_0000

  /** A column whose cells `astype(str)` renders as modelled: no float
      values, and in a float column only integers a float holds exactly. */
  predicate StrConvertible(rows: seq<Row>, col: string) {
    forall k :: 0 <= k < |rows| && col in rows[k] ==>
      && !rows[k][col].Real?
      && (FloatColumn(rows, col) && rows[k][col].Int? ==> -MaxExactFloat <= rows[k][col].i <= MaxExactFloat)
  }

  /** `astype(str)` on one cell: text is kept, integers are rendered in
      decimal (with ".0" in a float column), NaN becomes "nan". */
  function BibText(c: Cell, asFloat: bool): string
    requires !c.Real?
  {
    match c
    case Text(s) => s
    case Int(i) => if asFloat then IntToString(i) + ".0" else IntToString(i)
    case Missing => "nan"
  }

  /** `rows[col].astype(str)` at row `k`: the cell's text under its column's dtype. */
  function ColumnText(rows: seq<Row>, col: string, k: nat): string
    requires StrConvertible(rows, col) && k < |rows| && col in rows[k]
  {
    BibText(rows[k][col], FloatColumn(rows, col))
  }

  /** An integer read into a float column never prints like an integer
      read into an integer column, whatever the two values. */
  lemma FloatTextNotIntText(i: int, j: int)
    ensures IntToString(i) + ".0" != IntToString(j)
  {
    var s, t := IntToString(i) + ".0", IntToString(j);
    IntToStringRoundTrip(i);
    IntToStringRoundTrip(j);
    IntTextDigits(t);
    var n := |IntToString(i)|;
    assert n >= 1 by { NatToStringRoundTrip(if i < 0 then -i else i); }
    assert s[n] == '.';
  }

  /** Past its first character, an integer text is all digits. */
  lemma IntTextDigits(t: string)
    requires IsIntText(t)
    ensures forall p :: 1 <= p < |t| ==> IsDigit(t[p])
  {
    if |t| > 0 && t[0] == '-' {
      forall p | 1 <= p < |t| ensures IsDigit(t[p]) {
        assert t[1..][p - 1] == t[p];
      }
    }
  }

  /** With the column's dtype fixed, two integer cells print alike exactly
      when they are equal. */
  lemma IntCellTextInjective(i: int, j: int, asFloat: bool)
    ensures BibText(Int(i), asFloat) == BibText(Int(j), asFloat) <==> i == j
  {
    if BibText(Int(i), asFloat) == BibText(Int(j), asFloat) {
      if asFloat {
        var a, b := IntToString(i), IntToString(j);
        assert a + ".0" == b + ".0";
        assert |a| == |b|;
        assert a == (a + ".0")[..|a|] == (b + ".0")[..|b|] == b;
      }
      IntToStringInjective(i, j);
    }
  }

  /** A frame whose state a script changes in place (a pandas DataFrame
      handed to a function that assigns into it). */
  class Table {
    var frame: Frame

    constructor (f: Frame)
      ensures frame == f
    {
      frame := f;
    }
  }
}
