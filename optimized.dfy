/** The parallel scraper of src/data/Optimized.py after its pages are in:
    its page-identifier space, the `Finish Net` repair, the removal of rows
    holding an en dash, and the conversion of race times to seconds. The
    per-page rules are those of `Pages.ProcessUrl`. */
module OptimizedScraper {
  import opened Seqs
  import opened Frames
  import opened Ids

  /** `string.ascii_uppercase[0:6]`, the alphabet of the first character. */
  const FirstAlphabet: string := Uppercase[..6]

  /** `string.digits + string.ascii_uppercase[0:6]`: the hexadecimal digits
      in upper case, the alphabet of the other three characters. */
  const Alphabet: string := Digits + Uppercase[..6]

  const UrlPrefix: string := "https://results.baa.org/2024/?content=detail&fpid=search&pid=search&idp=9TGHS6FF19"

  const Identifiers: seq<string> := Words4(FirstAlphabet, Alphabet, Alphabet, Alphabet)

  const Addresses: seq<string> := Urls(UrlPrefix, Identifiers)

  predicate HexDigit(ch: char) {
    '0' <= ch <= '9' || 'A' <= ch <= 'F'
  }

  lemma AlphabetExact()
    ensures Distinct(Alphabet)
    ensures forall ch :: ch in Alphabet <==> HexDigit(ch)
  {
    CharRangeExact('0', 10);
    CharRangeExact('A', 6);
    assert Uppercase[..6] == CharRange('A', 6);
    DistinctConcat(Digits, Uppercase[..6]);
  }

  /** There are 6·16·16·16 identifiers, all distinct: a capital letter from
      A to F followed by three upper-case hexadecimal digits. */
  lemma IdentifierSpace()
    ensures |Identifiers| == 24576
    ensures forall w :: w in Identifiers <==>
      |w| == 4 && 'A' <= w[0] <= 'F' && HexDigit(w[1]) && HexDigit(w[2]) && HexDigit(w[3])
    ensures Distinct(Identifiers)
  {
    CharRangeExact('A', 6);
    assert FirstAlphabet == CharRange('A', 6);
    AlphabetExact();
    IdentifierCount();
    Words4Exact(FirstAlphabet, Alphabet, Alphabet, Alphabet);
  }

  lemma IdentifierCount()
    ensures |Identifiers| == 24576
  {
    Words4Exact(FirstAlphabet, Alphabet, Alphabet, Alphabet);
    assert |Alphabet| == |Digits| + 6 == 16;
    assert |FirstAlphabet| == 6;
    calc {
      |Identifiers|;
      |FirstAlphabet| * |Alphabet| * |Alphabet| * |Alphabet|;
      6 * 16 * 16 * 16;
    }
  }

  /** The addresses follow the identifiers one for one, in order, each the
      fixed prefix followed by its identifier, and none is listed twice. */
  lemma AddressSpace()
    ensures |Addresses| == |Identifiers| == 24576
    ensures forall k :: 0 <= k < |Addresses| ==>
      Addresses[k][..|UrlPrefix|] == UrlPrefix && Addresses[k][|UrlPrefix|..] == Identifiers[k]
    ensures Distinct(Addresses)
  {
    IdentifierSpace();
    UrlsDistinct(UrlPrefix, Identifiers);
  }

  const FinishNet: string := "Finish Net"
  const FinishNetStar: string := "Finish Net *"

  /** `df['Finish Net'] = df['Finish Net'].fillna(df['Finish Net *'])`
      followed by `df.drop(columns=['Finish Net *'])`: a missing net finish
      time is taken from the starred column, present ones are kept, and the
      starred column goes. Either column being absent raises `KeyError`,
      `Finish Net` first. */
  function FillFinish(f: Frame): (r: Result<Frame>)
    requires Valid(f)
    ensures FinishNet !in f.columns ==> r == Err(KeyError(FinishNet))
    ensures FinishNet in f.columns && FinishNetStar !in f.columns ==> r == Err(KeyError(FinishNetStar))
    ensures r.Ok? <==> FinishNet in f.columns && FinishNetStar in f.columns
    ensures r.Ok? ==> Valid(r.value) && r.value.columns == Without(f.columns, [FinishNetStar])
    ensures r.Ok? ==> |r.value.rows| == |f.rows|
    ensures r.Ok? ==> forall k :: 0 <= k < |f.rows| ==>
      r.value.rows[k][FinishNet] == if f.rows[k][FinishNet].Missing? then f.rows[k][FinishNetStar] else f.rows[k][FinishNet]
    ensures r.Ok? ==> forall k, c :: 0 <= k < |f.rows| && c in r.value.columns && c != FinishNet ==>
      r.value.rows[k][c] == f.rows[k][c]
  {
    if FinishNet !in f.columns then Err(KeyError(FinishNet))
    else if FinishNetStar !in f.columns then Err(KeyError(FinishNetStar))
    else
      var net, star := Column(f, FinishNet), Column(f, FinishNetStar);
      var filled := seq(|f.rows|, k requires 0 <= k < |f.rows| => if net[k].Missing? then star[k] else net[k]);
      DropColumns(SetColumn(f, FinishNet, filled), [FinishNetStar])
  }

  /** The character pandas compares against, U+2013 EN DASH. */
  const EnDash: string := "–"

  /** `df[col] == '–'` holds on this row. */
  predicate DashAt(row: Row, col: string) {
    col in row && row[col] == Text(EnDash)
  }

  /** No column of `cols` holds an en dash in this row. */
  predicate DashFree(row: Row, cols: seq<string>) {
    forall j :: 0 <= j < |cols| ==> !DashAt(row, cols[j])
  }

  function DashFreeIn(cols: seq<string>): Row -> bool {
    row => DashFree(row, cols)
  }

  function NoDashAt(col: string): Row -> bool {
    row => !DashAt(row, col)
  }

  /** `df.columns[2:]`: the columns from the third on. */
  function TimeColumns(cs: seq<string>): (r: seq<string>)
    ensures forall c :: c in r ==> c in cs
    ensures |r| == if |cs| > 2 then |cs| - 2 else 0
    ensures forall k :: 0 <= k < |r| ==> r[k] == cs[k + 2]
  {
    if |cs| <= 2 then [] else cs[2..]
  }

  /** The first column of `cols` missing from `a` or from `b`. */
  function FirstAbsent(cols: seq<string>, a: seq<string>, b: seq<string>): (m: Option<string>)
    ensures m.None? <==> forall c :: c in cols ==> c in a && c in b
    ensures m.Some? ==> m.value in cols && (m.value !in a || m.value !in b)
  {
    if cols == [] then None
    else if cols[0] !in a || cols[0] !in b then Some(cols[0])
    else FirstAbsent(cols[1..], a, b)
  }

  lemma FirstAbsentStep(cols: seq<string>, i: nat, a: seq<string>, b: seq<string>)
    requires i < |cols| && FirstAbsent(cols[..i], a, b).None?
    ensures cols[i] in a && cols[i] in b ==> FirstAbsent(cols[..i + 1], a, b).None?
    ensures cols[i] !in a || cols[i] !in b ==> FirstAbsent(cols, a, b) == Some(cols[i])
  {
    FirstAbsentPrefix(cols, i, a, b);
  }

  lemma {:induction false} FirstAbsentPrefix(cols: seq<string>, i: nat, a: seq<string>, b: seq<string>)
    requires i < |cols| && FirstAbsent(cols[..i], a, b).None?
    ensures FirstAbsent(cols, a, b) == FirstAbsent(cols[i..], a, b)
    ensures cols[..i + 1] == cols[..i] + [cols[i]]
    ensures cols[i] in a && cols[i] in b ==> FirstAbsent(cols[..i + 1], a, b).None?
  {
    if i > 0 {
      assert cols[..i][1..] == cols[1..][..i - 1];
      assert cols[..i][0] == cols[0];
      FirstAbsentPrefix(cols[1..], i - 1, a, b);
      assert cols[1..][i - 1..] == cols[i..];
      assert cols[..i + 1][1..] == cols[1..][..i];
    } else {
      assert cols[..1] == [cols[0]];
    }
  }

  /** One more dash-free column in the filter condition. */
  lemma DashFreeStep(cols: seq<string>, i: nat)
    requires i < |cols|
    ensures forall row :: DashFreeIn(cols[..i + 1])(row) == (DashFreeIn(cols[..i])(row) && NoDashAt(cols[i])(row))
  {
    forall row ensures DashFree(row, cols[..i + 1]) == (DashFree(row, cols[..i]) && !DashAt(row, cols[i])) {
      assert forall j :: 0 <= j < i ==> cols[..i + 1][j] == cols[..i][j];
      assert cols[..i + 1][i] == cols[i];
    }
  }

  /** Dropping the dash rows of one more column. */
  lemma DashStep(f: Frame, cols: seq<string>, i: nat)
    requires Valid(f) && i < |cols|
    ensures FilterRows(FilterRows(f, DashFreeIn(cols[..i])), NoDashAt(cols[i])) == FilterRows(f, DashFreeIn(cols[..i + 1]))
  {
    DashFreeStep(cols, i);
    FilterFilter(f.rows, DashFreeIn(cols[..i]), NoDashAt(cols[i]), DashFreeIn(cols[..i + 1]));
  }

  /** Before the first column nothing is dropped. */
  lemma DashFreeNone(f: Frame, cols: seq<string>)
    requires Valid(f)
    ensures FilterRows(f, DashFreeIn(cols[..0])) == f
  {
    assert forall i :: 0 <= i < |f.rows| ==> DashFreeIn(cols[..0])(f.rows[i]);
    FilterAll(f.rows, DashFreeIn(cols[..0]));
  }

  /** The en-dash loop (Optimized.py:145-151): for each column from the third
      on of `raceTime`, the rows holding an en dash there are dropped from
      all three frames. A column absent from the other two frames raises
      `KeyError`. The row labels after `ignore_index=True` are distinct, so
      dropping the rows of a mask by label is keeping the others. */
  method DropDashRows(raceTime: Frame, milesPerHour: Frame, minMile: Frame) returns (r: Result<(Frame, Frame, Frame)>)
    requires Valid(raceTime) && Valid(milesPerHour) && Valid(minMile)
    ensures var cols := TimeColumns(raceTime.columns);
      && (r.Err? <==> FirstAbsent(cols, milesPerHour.columns, minMile.columns).Some?)
      && (r.Err? ==> r.error == KeyError(FirstAbsent(cols, milesPerHour.columns, minMile.columns).value))
      && (r.Ok? ==> r.value == (FilterRows(raceTime, DashFreeIn(cols)), FilterRows(milesPerHour, DashFreeIn(cols)),
                                FilterRows(minMile, DashFreeIn(cols))))
  {
    var cols := TimeColumns(raceTime.columns);
    var rt, mph, mm := raceTime, milesPerHour, minMile;
    DashFreeNone(raceTime, cols);
    DashFreeNone(milesPerHour, cols);
    DashFreeNone(minMile, cols);
    for i := 0 to |cols|
      invariant FirstAbsent(cols[..i], milesPerHour.columns, minMile.columns).None?
      invariant rt == FilterRows(raceTime, DashFreeIn(cols[..i]))
      invariant mph == FilterRows(milesPerHour, DashFreeIn(cols[..i]))
      invariant mm == FilterRows(minMile, DashFreeIn(cols[..i]))
    {
      var col := cols[i];
      FirstAbsentStep(cols, i, milesPerHour.columns, minMile.columns);
      DashStep(raceTime, cols, i);
      rt := FilterRows(rt, NoDashAt(col));
      if col !in milesPerHour.columns {
        return Err(KeyError(col));
      }
      DashStep(milesPerHour, cols, i);
      mph := FilterRows(mph, NoDashAt(col));
      if col !in minMile.columns {
        return Err(KeyError(col));
      }
      DashStep(minMile, cols, i);
      mm := FilterRows(mm, NoDashAt(col));
    }
    assert cols[..|cols|] == cols;
    r := Ok((rt, mph, mm));
  }

  /** After the loop no kept row holds an en dash in any of the columns, and
      every row without one is kept. */
  lemma DashDropExact(f: Frame, cols: seq<string>)
    requires Valid(f)
    ensures forall row :: row in FilterRows(f, DashFreeIn(cols)).rows ==> row in f.rows && DashFree(row, cols)
    ensures forall k :: 0 <= k < |f.rows| && DashFree(f.rows[k], cols) ==> f.rows[k] in FilterRows(f, DashFreeIn(cols)).rows
  {
    forall k | 0 <= k < |f.rows| && DashFree(f.rows[k], cols)
      ensures f.rows[k] in FilterRows(f, DashFreeIn(cols)).rows
    {
      FilterKeeps(f.rows, DashFreeIn(cols), f.rows[k]);
    }
  }

  /** One field of `%H:%M:%S`: one or two decimal digits. */
  predicate TimeField(t: string) {
    1 <= |t| <= 2 && AllDigits(t)
  }

  /** `pd.to_datetime(x, format='%H:%M:%S')` read as seconds since
      midnight, `hour*3600 + minute*60 + second`: three colon-separated
      fields of one or two digits, the hour below 24 and the minute and
      second below 60; `ValueError` otherwise (including the leap seconds
      60 and 61, which the `%S` pattern itself would match). */
  function ParseHms(s: string): (r: Result<nat>)
    ensures r.Ok? ==> r.value < 86400
    ensures r.Err? ==> r.error == ValueError(s)
  {
    var parts := Split(s, ':');
    if |parts| == 3 && TimeField(parts[0]) && TimeField(parts[1]) && TimeField(parts[2])
       && DigitsValue(parts[0]) < 24 && DigitsValue(parts[1]) < 60 && DigitsValue(parts[2]) < 60
    then Ok(DigitsValue(parts[0]) * 3600 + DigitsValue(parts[1]) * 60 + DigitsValue(parts[2]))
    else Err(ValueError(s))
  }

  /** Three fields joined by colons, as `%H:%M:%S` writes them. */
  function JoinHms(h: string, m: string, sec: string): string {
    h + ":" + m + ":" + sec
  }

  /** Parsing three joined fields reads each field. */
  lemma ParseHmsOfFields(h: string, m: string, sec: string)
    requires TimeField(h) && TimeField(m) && TimeField(sec)
    ensures ParseHms(JoinHms(h, m, sec)).Ok? <==> DigitsValue(h) < 24 && DigitsValue(m) < 60 && DigitsValue(sec) < 60
    ensures ParseHms(JoinHms(h, m, sec)).Ok? ==>
      ParseHms(JoinHms(h, m, sec)).value == DigitsValue(h) * 3600 + DigitsValue(m) * 60 + DigitsValue(sec)
  {
    SplitFields(h, m, sec);
    var parts := Split(JoinHms(h, m, sec), ':');
    assert |parts| == 3 && parts[0] == h && parts[1] == m && parts[2] == sec;
  }

  lemma SplitFields(h: string, m: string, sec: string)
    requires TimeField(h) && TimeField(m) && TimeField(sec)
    ensures Split(JoinHms(h, m, sec), ':') == [h, m, sec]
  {
    assert ':' !in h && ':' !in m && ':' !in sec by {
      assert forall i :: 0 <= i < |h| ==> h[i] != ':';
      assert forall i :: 0 <= i < |m| ==> m[i] != ':';
      assert forall i :: 0 <= i < |sec| ==> sec[i] != ':';
    }
    assert h + ":" + m + ":" + sec == h + [':'] + (m + [':'] + sec);
    SplitJoin(h, ':', m + [':'] + sec);
    SplitJoin(m, ':', sec);
    SplitFirst(sec, ':');
  }

  /** Two decimal digits, with a leading zero below ten. */
  function TwoDigits(n: nat): (t: string)
    requires n < 100
    ensures TimeField(t) && DigitsValue(t) == n
  {
    var t := [DigitChar(n / 10), DigitChar(n % 10)];
    assert t[..1] == [DigitChar(n / 10)] && t[..1][..0] == [];
    assert DigitsValue(t[..1]) == n / 10;
    t
  }

  /** `strftime('%H:%M:%S')` of a time of day given in seconds. */
  function FormatHms(t: nat): string
    requires t < 86400
  {
    JoinHms(TwoDigits(t / 60 / 60), TwoDigits(t / 60 % 60), TwoDigits(t % 60))
  }

  /** Every second of the day formats to a text that parses back to it. */
  lemma FormatHmsRoundTrip(t: nat)
    requires t < 86400
    ensures ParseHms(FormatHms(t)) == Ok(t)
  {
    var minutes := t / 60;
    assert t == minutes * 60 + t % 60;
    assert minutes == minutes / 60 * 60 + minutes % 60;
    assert minutes / 60 < 24;
    ParseHmsOfFields(TwoDigits(minutes / 60), TwoDigits(minutes % 60), TwoDigits(t % 60));
  }

  /** `str` of a number cell, as `to_datetime` prints a non-text value
      before matching it against the format: an integer's digits, and a
      float's integer part followed by ".0". */
  function NumberText(c: Cell): string
    requires IsNumber(c)
  {
    if c.Int? then IntToString(c.i) else IntToString(c.x.Floor) + ".0"
  }

  /** A printed number has no colon, so it never matches `%H:%M:%S`. */
  lemma NumberNeverParses(c: Cell)
    requires IsNumber(c)
    ensures ParseHms(NumberText(c)) == Err(ValueError(NumberText(c)))
  {
    var t := IntToString(if c.Int? then c.i else c.x.Floor);
    IntToStringRoundTrip(if c.Int? then c.i else c.x.Floor);
    IntTextDigits(t);
    assert ':' !in t by {
      forall p | 0 <= p < |t| ensures t[p] != ':' {
        if p == 0 && !(|t| > 0 && t[0] == '-') {
          assert IsDigit(t[p]);
        }
      }
    }
    var s := NumberText(c);
    assert ':' !in s by {
      assert forall p :: 0 <= p < |s| ==> s[p] == (if p < |t| then t[p] else if p == |t| then '.' else '0');
    }
    SplitFirst(s, ':');
  }

  /** One cell of a time column after the conversion: a time text becomes
      its seconds, NaN stays NaN (`NaT` has no hour), a text that does not
      parse raises `ValueError`, and so does a number, which is printed
      and then fails the format. */
  function CellSeconds(c: Cell): (r: Result<Cell>)
    ensures c.Missing? ==> r == Ok(Missing)
    ensures c.Text? ==> (r.Ok? <==> ParseHms(c.s).Ok?)
    ensures c.Text? && r.Ok? ==> r.value == Int(ParseHms(c.s).value) && 0 <= r.value.i < 86400
    ensures c.Text? && r.Err? ==> r.error == ValueError(c.s)
    ensures IsNumber(c) ==> r == Err(ValueError(NumberText(c)))
  {
    match c
    case Missing => Ok(Missing)
    case Text(s) => (match ParseHms(s) case Ok(n) => Ok(Int(n)) case Err(e) => Err(e))
    case _ =>
      NumberNeverParses(c);
      match ParseHms(NumberText(c)) case Ok(n) => Ok(Int(n)) case Err(e) => Err(e)
  }

  /** The first cell of column `c` that does not convert, top to bottom. */
  function ColumnFailure(rows: seq<Row>, c: string): (m: Option<Error>)
    requires forall k :: 0 <= k < |rows| ==> c in rows[k]
    ensures m.None? <==> forall k :: 0 <= k < |rows| ==> CellSeconds(rows[k][c]).Ok?
  {
    if rows == [] then None
    else if CellSeconds(rows[0][c]).Err? then Some(CellSeconds(rows[0][c]).error)
    else
      var m := ColumnFailure(rows[1..], c);
      assert forall k :: 1 <= k < |rows| ==> rows[1..][k - 1] == rows[k];
      m
  }

  /** The first cell that does not convert, column by column as `apply`
      visits them. */
  function Failure(rows: seq<Row>, cols: seq<string>): (m: Option<Error>)
    requires forall k, j :: 0 <= k < |rows| && 0 <= j < |cols| ==> cols[j] in rows[k]
    ensures m.None? <==> forall k, j :: 0 <= k < |rows| && 0 <= j < |cols| ==> CellSeconds(rows[k][cols[j]]).Ok?
  {
    if cols == [] then None
    else
      match ColumnFailure(rows, cols[0])
      case Some(e) => Some(e)
      case None =>
        var m := Failure(rows, cols[1..]);
        assert forall j :: 1 <= j < |cols| ==> cols[1..][j - 1] == cols[j];
        m
  }

  /** `RaceTimeSeconds` (Optimized.py:153-158): every cell from the third
      column on converted to seconds, the bib and name columns in front as
      they were; the first cell that does not convert raises. */
  function ToSeconds(f: Frame): (r: Result<Frame>)
    requires Valid(f)
    ensures r.Err? <==> exists k, j :: 0 <= k < |f.rows| && 2 <= j < |f.columns| && CellSeconds(f.rows[k][f.columns[j]]).Err?
    ensures r.Err? ==> Some(r.error) == Failure(f.rows, TimeColumns(f.columns))
    ensures r.Ok? ==> Valid(r.value) && r.value.columns == f.columns && |r.value.rows| == |f.rows|
    ensures r.Ok? ==> forall k, j :: 0 <= k < |f.rows| && 0 <= j < |f.columns| ==>
      r.value.rows[k][f.columns[j]] ==
        if j < 2 then f.rows[k][f.columns[j]] else CellSeconds(f.rows[k][f.columns[j]]).value
  {
    var times := TimeColumns(f.columns);
    FailureAtTimeColumns(f);
    match Failure(f.rows, times)
    case Some(e) => Err(e)
    case None =>
      SecondsFrame(f);
      Ok(Frame(f.columns, SecondsRows(f.rows, times)))
  }

  /** Every row after the conversion. */
  function SecondsRows(rows: seq<Row>, times: seq<string>): (out: seq<Row>)
    requires forall k, j :: 0 <= k < |rows| && 0 <= j < |times| ==> times[j] in rows[k]
    requires Failure(rows, times).None?
  {
    seq(|rows|, k requires 0 <= k < |rows| => RowSeconds(rows[k], times))
  }

  /** The converted rows keep the columns, convert the time cells and keep
      the first two. */
  lemma SecondsFrame(f: Frame)
    requires Valid(f)
    requires forall k, j :: 0 <= k < |f.rows| && 0 <= j < |TimeColumns(f.columns)| ==> TimeColumns(f.columns)[j] in f.rows[k]
    requires Failure(f.rows, TimeColumns(f.columns)).None?
    ensures Valid(Frame(f.columns, SecondsRows(f.rows, TimeColumns(f.columns))))
    ensures |SecondsRows(f.rows, TimeColumns(f.columns))| == |f.rows|
    ensures forall k, j :: 0 <= k < |f.rows| && 0 <= j < |f.columns| ==>
      SecondsRows(f.rows, TimeColumns(f.columns))[k][f.columns[j]] ==
        if j < 2 then f.rows[k][f.columns[j]] else CellSeconds(f.rows[k][f.columns[j]]).value
  {
    var times := TimeColumns(f.columns);
    var rows := SecondsRows(f.rows, times);
    TimeColumnsAt(f);
    forall k, j | 0 <= k < |f.rows| && 0 <= j < |f.columns|
      ensures rows[k][f.columns[j]] == if j < 2 then f.rows[k][f.columns[j]] else CellSeconds(f.rows[k][f.columns[j]]).value
    {
      assert f.columns[j] in Labels(f.columns);
      assert rows[k] == RowSeconds(f.rows[k], times);
    }
  }

  /** One row after the conversion: the cells of `times` become their
      seconds, the others stay. */
  function RowSeconds(r: Row, times: seq<string>): (out: Row)
    requires forall c :: c in times ==> c in r && CellSeconds(r[c]).Ok?
    ensures out.Keys == r.Keys
    ensures forall c :: c in r ==> out[c] == if c in times then CellSeconds(r[c]).value else r[c]
  {
    map c | c in r :: if c in times then CellSeconds(r[c]).value else r[c]
  }

  /** Conversion fails exactly when some cell from the third column on does not convert. */
  lemma FailureAtTimeColumns(f: Frame)
    requires Valid(f)
    ensures forall k, j :: 0 <= k < |f.rows| && 0 <= j < |TimeColumns(f.columns)| ==> TimeColumns(f.columns)[j] in f.rows[k]
    ensures Failure(f.rows, TimeColumns(f.columns)).Some? <==>
      exists k, j :: 0 <= k < |f.rows| && 2 <= j < |f.columns| && CellSeconds(f.rows[k][f.columns[j]]).Err?
  {
    TimeColumnsShift(f.columns);
    TimeColumnsInRows(f);
    var times := TimeColumns(f.columns);
    if Failure(f.rows, times).Some? {
      var k, j :| 0 <= k < |f.rows| && 0 <= j < |times| && CellSeconds(f.rows[k][times[j]]).Err?;
      assert times[j] == f.columns[j + 2];
      assert CellSeconds(f.rows[k][f.columns[j + 2]]).Err?;
    } else {
      forall k, j | 0 <= k < |f.rows| && 2 <= j < |f.columns| ensures CellSeconds(f.rows[k][f.columns[j]]).Ok? {
        assert f.columns[j] == times[j - 2];
      }
    }
  }

  /** The time columns are the columns from the third on, each in every row. */
  lemma TimeColumnsAt(f: Frame)
    requires Valid(f)
    ensures forall j :: 0 <= j < |TimeColumns(f.columns)| ==> j + 2 < |f.columns| && TimeColumns(f.columns)[j] == f.columns[j + 2]
    ensures |TimeColumns(f.columns)| == if |f.columns| <= 2 then 0 else |f.columns| - 2
    ensures forall j :: 0 <= j < |f.columns| ==> (f.columns[j] in TimeColumns(f.columns) <==> 2 <= j)
    ensures forall k, j :: 0 <= k < |f.rows| && 0 <= j < |TimeColumns(f.columns)| ==> TimeColumns(f.columns)[j] in f.rows[k]
  {
    TimeColumnsShift(f.columns);
    TimeColumnsFrom(f.columns);
    TimeColumnsInRows(f);
  }

  lemma TimeColumnsShift(cs: seq<string>)
    ensures forall j :: 0 <= j < |TimeColumns(cs)| ==> j + 2 < |cs| && TimeColumns(cs)[j] == cs[j + 2]
    ensures |TimeColumns(cs)| == if |cs| <= 2 then 0 else |cs| - 2
  {
    if |cs| > 2 {
      assert TimeColumns(cs) == cs[2..];
    } else {
      assert TimeColumns(cs) == [];
    }
  }

  /** With distinct columns, exactly those from the third on are time columns. */
  lemma TimeColumnsFrom(cs: seq<string>)
    requires Distinct(cs)
    ensures forall j :: 0 <= j < |cs| ==> (cs[j] in TimeColumns(cs) <==> 2 <= j)
  {
    var times := TimeColumns(cs);
    TimeColumnsShift(cs);
    forall j | 0 <= j < |cs| ensures cs[j] in times <==> 2 <= j {
      if 2 <= j {
        assert times[j - 2] == cs[j];
      }
      if cs[j] in times {
        var x :| 0 <= x < |times| && times[x] == cs[j];
        assert cs[x + 2] == cs[j];
      }
    }
  }

  lemma TimeColumnsInRows(f: Frame)
    requires Valid(f)
    ensures forall k, j :: 0 <= k < |f.rows| && 0 <= j < |TimeColumns(f.columns)| ==> TimeColumns(f.columns)[j] in f.rows[k]
  {
    var times := TimeColumns(f.columns);
    forall k, j | 0 <= k < |f.rows| && 0 <= j < |times| ensures times[j] in f.rows[k] {
      assert times[j] in Labels(f.columns);
    }
  }
}
