/** The earlier analysis script src/visualization/visualize.py: three
    families, the thresholds "more than 4" and "more than 3", a merge that
    converts the callers' bib columns in place, the x-axis read from the
    column labels, and the pairwise comparison of the trendlines. */
module Visualize {
  import opened Seqs
  import opened Frames
  import opened Grouping

  /** `len(family_data) > 4` and `len(shoe_data) > 3`. */
  const FamilyMin: nat := 5
  const ShoeMin: nat := 4
  const SignificanceLevel: real := 0.05

  const Families: seq<Family> := [
    Family("Adios", ["adios"]),
    Family("Vaporfly", ["vaporfly"]),
    Family("Alphafly", ["alphafly"])
  ]

  /** The family names are distinct and each matches its own keyword. */
  lemma FamiliesWellFormed()
    ensures WellFormedFamilies(Families)
  {
    assert Lower("Adios")[..5] == "adios";
    assert Matches(Families[0].name, Families[0]) by { assert "adios" in Families[0].keywords; }
    assert Lower("Vaporfly")[..8] == "vaporfly";
    assert Matches(Families[1].name, Families[1]) by { assert "vaporfly" in Families[1].keywords; }
    assert Lower("Alphafly")[..8] == "alphafly";
    assert Matches(Families[2].name, Families[2]) by { assert "alphafly" in Families[2].keywords; }
  }

  // ---------------------------------------------------------------------
  // merge_data
  // ---------------------------------------------------------------------

  /** `merge_data` (visualize.py:21-28): both callers' bib columns are
      rewritten as text, the frames are inner-joined on bib, and LastName
      and then name are dropped. The result is the shared merge of the
      original frames, whether or not the two tables are one object. */
  method MergeData(t1: Table, t2: Table) returns (r: Result<Frame>)
    requires MergeInputs(t1.frame, t2.frame)
    modifies t1, t2
    ensures t1.frame == BibsAsText(old(t1.frame))
    ensures t2.frame == BibsAsText(old(t2.frame))
    ensures r == MergeOnBib(old(t1.frame), old(t2.frame))
  {
    ghost var f1, f2 := t1.frame, t2.frame;
    t1.frame := BibsAsText(t1.frame);
    if t1 == t2 {
      BibsAsTextIdempotent(t1.frame);
    }
    t2.frame := BibsAsText(t2.frame);
    assert t1.frame == BibsAsText(f1) && t2.frame == BibsAsText(f2);
    var data := Merge(t1.frame, t2.frame);
    DropInSequence(data, [LastNameColumn], [NameColumn]);
    assert [LastNameColumn] + [NameColumn] == [LastNameColumn, NameColumn];
    var withoutLast := DropColumns(data, [LastNameColumn]);
    if withoutLast.Err? {
      return withoutLast;
    }
    r := DropColumns(withoutLast.value, [NameColumn]);
  }

  // ---------------------------------------------------------------------
  // extract_float and the x-axis
  // ---------------------------------------------------------------------

  /** A character of the pattern `[\d.]`. */
  predicate FloatChar(ch: char) {
    IsDigit(ch) || ch == '.'
  }

  /** The end of the run of pattern characters starting at `j`. */
  function RunEnd(s: string, j: nat): (e: nat)
    requires j <= |s|
    ensures j <= e <= |s|
    ensures forall k :: j <= k < e ==> FloatChar(s[k])
    ensures e == |s| || !FloatChar(s[e])
    decreases |s| - j
  {
    if j < |s| && FloatChar(s[j]) then RunEnd(s, j + 1) else j
  }

  /** `re.search(r'[\d.]+', s)` from position `i`: the leftmost maximal run,
      as its start and end. */
  function FirstRun(s: string, i: nat): (r: Option<(nat, nat)>)
    requires i <= |s|
    ensures r.None? <==> forall k :: i <= k < |s| ==> !FloatChar(s[k])
    ensures r.Some? ==> i <= r.value.0 < r.value.1 <= |s|
    ensures r.Some? ==> forall k :: i <= k < r.value.0 ==> !FloatChar(s[k])
    ensures r.Some? ==> forall k :: r.value.0 <= k < r.value.1 ==> FloatChar(s[k])
    ensures r.Some? ==> r.value.1 == |s| || !FloatChar(s[r.value.1])
    decreases |s| - i
  {
    if i == |s| then None
    else if FloatChar(s[i]) then Some((i, RunEnd(s, i)))
    else FirstRun(s, i + 1)
  }

  function Pow10(n: nat): (p: nat)
    ensures p >= 1
  {
    if n == 0 then 1 else 10 * Pow10(n - 1)
  }

  /** `t` is digits, a dot at position `p`, then digits. */
  predicate DotAt(t: string, p: nat) {
    p < |t| && t[p] == '.' && AllDigits(t[..p]) && AllDigits(t[p + 1..])
  }

  /** The value of `whole` "." `frac`: the whole part plus the fraction
      over its power of ten. */
  function Decimal(whole: string, frac: string): real
    requires AllDigits(whole) && AllDigits(frac)
  {
    DigitsValue(whole) as real + DigitsValue(frac) as real / Pow10(|frac|) as real
  }

  /** `t` has two dots. */
  predicate TwoDots(t: string) {
    exists p, q :: 0 <= p < q < |t| && t[p] == '.' && t[q] == '.'
  }

  /** Python's `float` on a run of digits and dots: digits with at most one
      dot and at least one digit; `None` where `float` raises. */
  function ParseRun(t: string): (x: Option<real>)
    requires forall k :: 0 <= k < |t| ==> FloatChar(t[k])
    ensures x.Some? <==> (AllDigits(t) && t != []) || (|t| > 1 && exists p: nat :: DotAt(t, p))
    ensures AllDigits(t) && t != [] ==> x == Some(DigitsValue(t) as real)
    ensures forall p: nat :: |t| > 1 && DotAt(t, p) ==> x == Some(Decimal(t[..p], t[p + 1..]))
    ensures TwoDots(t) ==> x.None?
    ensures t == "." ==> x.None?
  {
    if AllDigits(t) then
      DigitsNoDot(t);
      if t == [] then None else Some(DigitsValue(t) as real)
    else
      FirstDot(t);
      OnlyFirstDot(t);
      var p := FirstIndex(t, '.');
      var whole, frac := t[..p], t[p + 1..];
      if AllDigits(frac) && |whole| + |frac| > 0 then
        Some(Decimal(whole, frac))
      else None
  }

  /** A run of digits has no dot. */
  lemma DigitsNoDot(t: string)
    requires AllDigits(t)
    ensures forall p: nat :: !DotAt(t, p)
    ensures forall p :: 0 <= p < |t| ==> t[p] != '.'
  {
    forall p: nat | p < |t| ensures t[p] != '.' {
      assert IsDigit(t[p]);
    }
  }

  /** A run that is not all digits has a dot, and the digits before its
      first dot are the whole part. */
  lemma FirstDot(t: string)
    requires forall k :: 0 <= k < |t| ==> FloatChar(t[k])
    requires !AllDigits(t)
    ensures '.' in t
    ensures AllDigits(t[..FirstIndex(t, '.')])
  {
    var d :| 0 <= d < |t| && !IsDigit(t[d]);
    assert FloatChar(t[d]);
    assert t[d] == '.' && t[d] in t;
    var p := FirstIndex(t, '.');
    forall k | 0 <= k < p ensures IsDigit(t[..p][k]) {
      assert t[..p][k] == t[k];
      assert t[k] in t[..p] && FloatChar(t[k]);
    }
  }

  /** The first dot of a run is its only candidate dot, and a second dot
      spoils the fraction. */
  lemma OnlyFirstDot(t: string)
    requires '.' in t && AllDigits(t[..FirstIndex(t, '.')])
    ensures forall q: nat :: DotAt(t, q) ==> q == FirstIndex(t, '.')
    ensures TwoDots(t) ==> !AllDigits(t[FirstIndex(t, '.') + 1..])
    ensures AllDigits(t[FirstIndex(t, '.') + 1..]) ==> DotAt(t, FirstIndex(t, '.'))
  {
    var p := FirstIndex(t, '.');
    forall q: nat | DotAt(t, q) ensures q == p {
      DotIsFirst(t, p, q);
    }
    if TwoDots(t) {
      var a, b :| 0 <= a < b < |t| && t[a] == '.' && t[b] == '.';
      SecondDot(t, p, a, b);
    }
  }

  /** Only the first dot of a run can be its one dot. */
  lemma DotIsFirst(t: string, p: nat, q: nat)
    requires p < |t| && t[p] == '.' && '.' !in t[..p]
    requires DotAt(t, q)
    ensures q == p
  {
    forall k | 0 <= k < p ensures t[k] != '.' {
      assert t[..p][k] == t[k];
    }
    forall k | 0 <= k < q ensures IsDigit(t[k]) {
      assert t[..q][k] == t[k];
    }
  }

  /** A dot after the first dot leaves a fraction that is not all digits. */
  lemma SecondDot(t: string, p: nat, a: nat, b: nat)
    requires p < |t| && t[p] == '.' && '.' !in t[..p]
    requires a < b < |t| && t[a] == '.' && t[b] == '.'
    ensures !AllDigits(t[p + 1..])
  {
    forall k | 0 <= k < p ensures t[k] != '.' {
      assert t[..p][k] == t[k];
    }
    assert p <= a;
    assert t[p + 1..][b - p - 1] == '.';
  }

  /** `extract_float` (visualize.py:105-108): `Ok(None)` is the NaN of a
      label without digits or dots; a run `float` rejects raises. */
  function ExtractFloat(name: string): (r: Result<Option<real>>)
    ensures (forall k :: 0 <= k < |name| ==> !FloatChar(name[k])) <==> r == Ok(None)
  {
    match FirstRun(name, 0)
    case None => Ok(None)
    case Some((i, j)) =>
      match ParseRun(name[i..j])
      case None => Err(ValueError(name[i..j]))
      case Some(x) => Ok(Some(x))
  }

  /** A run is the one `RunEnd` finds when it is maximal. */
  lemma {:induction false} RunEndAt(s: string, j: nat, e: nat)
    requires j <= e <= |s|
    requires forall k :: j <= k < e ==> FloatChar(s[k])
    requires e == |s| || !FloatChar(s[e])
    ensures RunEnd(s, j) == e
    decreases e - j
  {
    if j < e {
      RunEndAt(s, j + 1, e);
    }
  }

  /** Digits followed by a letter read as the number the digits spell. */
  lemma DigitsThenLetter(d: string, letter: char)
    requires AllDigits(d) && d != [] && !FloatChar(letter)
    ensures ExtractFloat(d + [letter]) == Ok(Some(DigitsValue(d) as real))
  {
    var s := d + [letter];
    forall k | 0 <= k < |d| ensures FloatChar(s[k]) {
      assert s[k] == d[k];
    }
    assert s[|d|] == letter;
    RunEndAt(s, 0, |d|);
    assert FirstRun(s, 0) == Some((0, |d|));
    assert s[0..|d|] == d;
    assert ParseRun(d) == Some(DigitsValue(d) as real);
  }

  /** A decimal number followed by a letter, such as "21.1K", reads as
      that number: whole part plus fraction over its power of ten. */
  lemma DecimalThenLetter(w: string, f: string, letter: char)
    requires AllDigits(w) && AllDigits(f) && |w| + |f| > 0 && !FloatChar(letter)
    ensures ExtractFloat(w + "." + f + [letter]) == Ok(Some(Decimal(w, f)))
  {
    var t := w + "." + f;
    var s := t + [letter];
    DecimalParts(w, f, t);
    DecimalRun(w, f, t);
    forall k | 0 <= k < |t| ensures FloatChar(s[k]) {
      assert s[k] == t[k];
    }
    assert s[|t|] == letter;
    RunEndAt(s, 0, |t|);
    assert FirstRun(s, 0) == Some((0, |t|));
    assert s[0..|t|] == t;
  }

  /** A run cut at its dot into digits `w` and `f` parses as the decimal
      they spell. */
  lemma DecimalRun(w: string, f: string, t: string)
    requires forall k :: 0 <= k < |t| ==> FloatChar(t[k])
    requires |t| > 1 && DotAt(t, |w|) && t[..|w|] == w && t[|w| + 1..] == f
    ensures ParseRun(t) == Some(Decimal(w, f))
  {
    DotValue(t, |w|);
  }

  lemma DotValue(t: string, p: nat)
    requires forall k :: 0 <= k < |t| ==> FloatChar(t[k])
    requires |t| > 1 && DotAt(t, p)
    ensures ParseRun(t) == Some(Decimal(t[..p], t[p + 1..]))
  {
  }

  lemma DecimalParts(w: string, f: string, t: string)
    requires AllDigits(w) && AllDigits(f) && t == w + "." + f
    ensures forall k :: 0 <= k < |t| ==> FloatChar(t[k])
    ensures |t| == |w| + 1 + |f| && DotAt(t, |w|) && t[..|w|] == w && t[|w| + 1..] == f
  {
    forall k | 0 <= k < |t| ensures FloatChar(t[k]) {
      if k < |w| {
        assert t[k] == w[k];
      } else if k > |w| {
        assert t[k] == f[k - |w| - 1];
      }
    }
  }

  /** A number with two dots, such as "1.2.3", makes `float` raise. */
  lemma TwoDotsRaise(a: string, b: string, c: string)
    requires AllDigits(a) && AllDigits(b) && AllDigits(c)
    ensures ExtractFloat(a + "." + b + "." + c).Err?
  {
    var t := a + "." + b + "." + c;
    forall k | 0 <= k < |t| ensures FloatChar(t[k]) {
      if k < |a| {
        assert t[k] == a[k];
      } else if |a| < k < |a| + 1 + |b| {
        assert t[k] == b[k - |a| - 1];
      } else if k > |a| + 1 + |b| {
        assert t[k] == c[k - |a| - |b| - 2];
      }
    }
    RunEndAt(t, 0, |t|);
    assert FirstRun(t, 0) == Some((0, |t|));
    assert t[0..|t|] == t;
    assert t[|a|] == '.' && t[|a| + 1 + |b|] == '.';
  }

  /** A checkpoint label such as "10K" gives its kilometre count. */
  lemma CheckpointLabelValue(n: nat)
    ensures ExtractFloat(NatToString(n) + "K") == Ok(Some(n as real))
  {
    NatToStringRoundTrip(n);
    DigitsThenLetter(NatToString(n), 'K');
  }

  /** A label without digits or dots, such as "Finish Net", is NaN. */
  lemma FinishLabelIsNaN()
    ensures ExtractFloat("Finish Net") == Ok(None)
  {
    NoFloatChars("Finish Net");
  }

  /** A label made of letters and spaces has no digit and no dot. */
  lemma NoFloatChars(s: string)
    requires forall k :: 0 <= k < |s| ==> s[k] == ' ' || 'A' <= s[k] <= 'Z' || 'a' <= s[k] <= 'z'
    ensures ExtractFloat(s) == Ok(None)
  {
    assert forall k :: 0 <= k < |s| ==> !FloatChar(s[k]);
  }

  /** `split_labels.map(extract_float)`: the first label that raises aborts. */
  function XAxis(labels: seq<string>): (r: Result<seq<Option<real>>>)
    ensures r.Ok? <==> forall k :: 0 <= k < |labels| ==> ExtractFloat(labels[k]).Ok?
    ensures r.Ok? ==> |r.value| == |labels| && forall k :: 0 <= k < |labels| ==> r.value[k] == ExtractFloat(labels[k]).value
  {
    if labels == [] then Ok([])
    else
      match ExtractFloat(labels[0])
      case Err(e) => Err(e)
      case Ok(x) =>
        match XAxis(labels[1..])
        case Err(e) => Err(e)
        case Ok(xs) =>
          assert forall k :: 0 < k < |labels| ==> labels[1..][k - 1] == labels[k];
          Ok([x] + xs)
  }

  /** Checkpoint columns named "<n>K" plot at their kilometre counts. */
  lemma CheckpointAxis(labels: seq<string>, km: seq<nat>)
    requires |labels| == |km| && forall k :: 0 <= k < |labels| ==> labels[k] == NatToString(km[k]) + "K"
    ensures XAxis(labels).Ok?
    ensures forall k :: 0 <= k < |labels| ==> XAxis(labels).value[k] == Some(km[k] as real)
  {
    forall k | 0 <= k < |labels| ensures ExtractFloat(labels[k]) == Ok(Some(km[k] as real)) {
      CheckpointLabelValue(km[k]);
    }
  }

  // ---------------------------------------------------------------------
  // plot_data and fit_data
  // ---------------------------------------------------------------------

  /** `np.polyfit(x_numeric, avg_curve, 1)` gets a fit: an empty x raises
      `TypeError` and a NaN in x makes the least-squares solver raise
      `LinAlgError`. */
  predicate Fittable(xs: seq<Option<real>>) {
    xs != [] && forall k :: 0 <= k < |xs| ==> xs[k].Some?
  }

  /** The exception `np.polyfit` raises on an axis that is not `Fittable`. */
  function PolyfitError(xs: seq<Option<real>>): (e: Error)
    requires !Fittable(xs)
    ensures xs == [] <==> e == TypeError
    ensures xs != [] <==> e == LinAlgError
  {
    if xs == [] then TypeError else LinAlgError
  }

  /** A plotted "Finish Net" column becomes NaN on the x-axis, so no fit is
      possible on the column labels of a frame that keeps it. */
  lemma FinishLabelBreaksFit(labels: seq<string>)
    requires "Finish Net" in labels && XAxis(labels).Ok?
    ensures !Fittable(XAxis(labels).value)
  {
    var k :| 0 <= k < |labels| && labels[k] == "Finish Net";
    FinishLabelIsNaN();
    assert XAxis(labels).value[k] == None;
  }

  /** The rows `plot_data` averages (visualize.py:97-100): label and bib are
      dropped, the frame is transposed, and `[1:]` discards the first
      remaining column. */
  function PlotColumns(data: Frame): (cols: seq<string>)
    ensures forall c :: c in cols ==> c in data.columns && c != LabelColumn && c != BibColumn
    ensures |Without(data.columns, [LabelColumn, BibColumn])| > 0 ==>
      [Without(data.columns, [LabelColumn, BibColumn])[0]] + cols == Without(data.columns, [LabelColumn, BibColumn])
  {
    var values := Without(data.columns, [LabelColumn, BibColumn]);
    if values == [] then []
    else
      assert forall c :: c in values[1..] ==> c in values;
      values[1..]
  }

  /** The outcome of one slope comparison. */
  datatype Comparison = Comparison(first: string, second: string, pValue: real, significant: bool)

  /** One comparison; the t-test's p-value is an input. */
  function Compare(e1: Entry, e2: Entry, pValue: (Entry, Entry) -> real): (c: Comparison)
    ensures c.first == e1.name && c.second == e2.name && c.pValue == pValue(e1, e2)
    ensures c.significant <==> pValue(e1, e2) < SignificanceLevel
  {
    var p := pValue(e1, e2);
    Comparison(e1.name, e2.name, p, p < SignificanceLevel)
  }

  /** The pairs (i, j) with i < j < n for one fixed i, in increasing j. */
  function RowPairs(i: nat, n: nat): (ps: seq<(nat, nat)>)
    ensures |ps| == if i < n then n - i - 1 else 0
    ensures forall k :: 0 <= k < |ps| ==> ps[k] == (i, i + 1 + k)
  {
    if i < n then seq(n - i - 1, k requires 0 <= k < n - i - 1 => (i, i + 1 + k)) else []
  }

  /** The pairs visited by the nested loops for outer indices below `m`. */
  function PairsBelow(m: nat, n: nat): seq<(nat, nat)> {
    if m == 0 then [] else PairsBelow(m - 1, n) + RowPairs(m - 1, n)
  }

  function AllPairs(n: nat): seq<(nat, nat)> {
    PairsBelow(n, n)
  }

  /** Exactly the pairs with first index below `m` and i < j < n. */
  lemma {:induction false} PairsBelowExact(m: nat, n: nat)
    ensures forall p: (nat, nat) :: p in PairsBelow(m, n) <==> p.0 < m && p.0 < p.1 < n
  {
    if m > 0 {
      PairsBelowExact(m - 1, n);
      var rp := RowPairs(m - 1, n);
      forall p: (nat, nat) | p.0 == m - 1 && p.0 < p.1 < n ensures p in rp {
        assert rp[p.1 - m] == p;
      }
    }
  }

  /** The loops visit the pairs in lexicographic order, hence each once. */
  lemma {:induction false} PairsBelowOrdered(m: nat, n: nat)
    ensures LexIncreasing(PairsBelow(m, n))
    ensures forall x :: 0 <= x < |PairsBelow(m, n)| ==> PairsBelow(m, n)[x].0 < m
  {
    if m > 0 {
      PairsBelowOrdered(m - 1, n);
      RowAfterOrdered(PairsBelow(m - 1, n), m - 1, n);
    }
  }

  /** Row `i` of pairs placed after pairs whose first index is below `i`
      keeps the order. */
  lemma RowAfterOrdered(front: seq<(nat, nat)>, i: nat, n: nat)
    requires LexIncreasing(front)
    requires forall x :: 0 <= x < |front| ==> front[x].0 < i
    ensures LexIncreasing(front + RowPairs(i, n))
    ensures forall x :: 0 <= x < |front + RowPairs(i, n)| ==> (front + RowPairs(i, n))[x].0 <= i
  {
    var rp := RowPairs(i, n);
    var s := front + rp;
    forall x, y | 0 <= x < y < |s| ensures s[x].0 < s[y].0 || (s[x].0 == s[y].0 && s[x].1 < s[y].1) {
      if y < |front| {
        assert s[x] == front[x] && s[y] == front[y];
      } else if x < |front| {
        assert s[x] == front[x] && s[y] == rp[y - |front|];
      } else {
        assert s[x] == rp[x - |front|] && s[y] == rp[y - |front|];
      }
    }
    forall x | 0 <= x < |s| ensures s[x].0 <= i {
      if x < |front| {
        assert s[x] == front[x];
      } else {
        assert s[x] == rp[x - |front|];
      }
    }
  }

  /** `2 · |pairs| == m · (2n − m − 1)`, so n groups give n(n−1)/2 comparisons. */
  lemma {:induction false} PairsBelowCount(m: nat, n: nat)
    requires m <= n
    ensures 2 * |PairsBelow(m, n)| == m * (2 * n - m - 1)
  {
    if m > 0 {
      PairsBelowCount(m - 1, n);
      assert 2 * |PairsBelow(m, n)| == (m - 1) * (2 * n - m) + 2 * (n - m);
      assert (m - 1) * (2 * n - m) + 2 * (n - m) == m * (2 * n - m - 1);
    }
  }

  lemma AllPairsExact(n: nat)
    ensures forall p: (nat, nat) :: p in AllPairs(n) <==> p.0 < p.1 < n
    ensures LexIncreasing(AllPairs(n))
    ensures 2 * |AllPairs(n)| == n * (n - 1)
  {
    PairsBelowExact(n, n);
    PairsBelowOrdered(n, n);
    PairsBelowCount(n, n);
  }

  /** Every pair indexes a list of `n` entries. */
  predicate InRange(ps: seq<(nat, nat)>, n: nat) {
    forall x :: 0 <= x < |ps| ==> ps[x].0 < n && ps[x].1 < n
  }

  lemma PairsBelowInRange(m: nat, n: nat)
    ensures InRange(PairsBelow(m, n), n)
  {
    PairsBelowExact(m, n);
    forall x | 0 <= x < |PairsBelow(m, n)| ensures PairsBelow(m, n)[x].0 < n && PairsBelow(m, n)[x].1 < n {
      assert PairsBelow(m, n)[x] in PairsBelow(m, n);
    }
  }

  /** The comparisons for a list of index pairs. */
  function ComparisonsOf(es: seq<Entry>, ps: seq<(nat, nat)>, pValue: (Entry, Entry) -> real): (cs: seq<Comparison>)
    requires InRange(ps, |es|)
    ensures |cs| == |ps|
    ensures forall x :: 0 <= x < |ps| ==> cs[x] == Compare(es[ps[x].0], es[ps[x].1], pValue)
  {
    seq(|ps|, x requires 0 <= x < |ps| => Compare(es[ps[x].0], es[ps[x].1], pValue))
  }

  lemma ComparisonsAppend(es: seq<Entry>, ps: seq<(nat, nat)>, p: (nat, nat), pValue: (Entry, Entry) -> real)
    requires InRange(ps, |es|) && p.0 < |es| && p.1 < |es|
    ensures InRange(ps + [p], |es|)
    ensures ComparisonsOf(es, ps + [p], pValue) == ComparisonsOf(es, ps, pValue) + [Compare(es[p.0], es[p.1], pValue)]
  {
    assert forall x :: 0 <= x < |ps| ==> (ps + [p])[x] == ps[x];
    assert (ps + [p])[|ps|] == p;
  }

  /** What `compare_trendlines` reports: every unordered pair of entries in
      dictionary order when there are two or more, otherwise nothing. */
  function Comparisons(es: seq<Entry>, pValue: (Entry, Entry) -> real): seq<Comparison> {
    if |es| >= 2 then
      PairsBelowInRange(|es|, |es|);
      ComparisonsOf(es, AllPairs(|es|), pValue)
    else []
  }

  /** With n entries there are n(n−1)/2 comparisons. */
  lemma ComparisonsCount(es: seq<Entry>, pValue: (Entry, Entry) -> real)
    ensures 2 * |Comparisons(es, pValue)| == |es| * (|es| - 1)
  {
    PairsBelowCount(|es|, |es|);
    if |es| == 1 {
      assert |es| * (|es| - 1) == 0;
    }
  }

  /** Every pair i < j of entries is compared, and every comparison is of
      such a pair, the x-th of the x-th pair in dictionary order. */
  lemma ComparisonsExact(es: seq<Entry>, pValue: (Entry, Entry) -> real)
    ensures forall i, j :: 0 <= i < j < |es| ==> Compare(es[i], es[j], pValue) in Comparisons(es, pValue)
    ensures |es| >= 2 ==> forall x :: 0 <= x < |Comparisons(es, pValue)| ==>
      AllPairs(|es|)[x].0 < AllPairs(|es|)[x].1 < |es| &&
      Comparisons(es, pValue)[x] == Compare(es[AllPairs(|es|)[x].0], es[AllPairs(|es|)[x].1], pValue)
  {
    forall i, j | 0 <= i < j < |es| ensures Compare(es[i], es[j], pValue) in Comparisons(es, pValue) {
      PairCompared(es, pValue, i, j);
    }
    if |es| >= 2 {
      ComparisonsInOrder(es, pValue);
    }
  }

  /** The pair (i, j) is among the comparisons. */
  lemma PairCompared(es: seq<Entry>, pValue: (Entry, Entry) -> real, i: nat, j: nat)
    requires i < j < |es|
    ensures Compare(es[i], es[j], pValue) in Comparisons(es, pValue)
  {
    var n := |es|;
    PairsBelowExact(n, n);
    var ps := AllPairs(n);
    assert (i, j) in ps;
    var x :| 0 <= x < |ps| && ps[x] == (i, j);
    var cs := Comparisons(es, pValue);
    assert cs == ComparisonsOf(es, ps, pValue);
    assert cs[x] == Compare(es[i], es[j], pValue);
  }

  /** The x-th comparison is that of the x-th pair, and that pair is i < j < n. */
  lemma ComparisonsInOrder(es: seq<Entry>, pValue: (Entry, Entry) -> real)
    requires |es| >= 2
    ensures forall x :: 0 <= x < |Comparisons(es, pValue)| ==>
      AllPairs(|es|)[x].0 < AllPairs(|es|)[x].1 < |es| &&
      Comparisons(es, pValue)[x] == Compare(es[AllPairs(|es|)[x].0], es[AllPairs(|es|)[x].1], pValue)
  {
    var n := |es|;
    PairsBelowExact(n, n);
    var ps := AllPairs(n);
    assert Comparisons(es, pValue) == ComparisonsOf(es, ps, pValue);
    forall x | 0 <= x < |ps| ensures ps[x].0 < ps[x].1 < n {
      assert ps[x] in ps;
    }
  }

  lemma PairsStep(i: nat, j: nat, n: nat)
    requires i < j < n
    ensures RowPairs(i, n)[..j - i] == RowPairs(i, n)[..j - i - 1] + [(i, j)]
  {
    var rp := RowPairs(i, n);
    assert rp[j - i - 1] == (i, j);
    assert rp[..j - i] == rp[..j - i - 1] + [rp[j - i - 1]];
  }

  /** `compare_trendlines` (visualize.py:128-149), the nested index loops. */
  method CompareTrendlines(es: seq<Entry>, pValue: (Entry, Entry) -> real) returns (cs: seq<Comparison>)
    ensures cs == Comparisons(es, pValue)
  {
    cs := [];
    var n := |es|;
    if n >= 2 {
      for i := 0 to n
        invariant InRange(PairsBelow(i, n), n)
        invariant cs == ComparisonsOf(es, PairsBelow(i, n), pValue)
      {
        ghost var front := PairsBelow(i, n);
        ghost var rp := RowPairs(i, n);
        PairsBelowInRange(i + 1, n);
        for j := i + 1 to n
          invariant InRange(front + rp[..j - i - 1], n)
          invariant cs == ComparisonsOf(es, front + rp[..j - i - 1], pValue)
        {
          PairsStep(i, j, n);
          assert front + rp[..j - i] == (front + rp[..j - i - 1]) + [(i, j)];
          ComparisonsAppend(es, front + rp[..j - i - 1], (i, j), pValue);
          cs := cs + [Compare(es[i], es[j], pValue)];
        }
        assert rp[..n - i - 1] == rp;
      }
    }
  }

  /** `fit_data` (visualize.py:40-90) without the plots: labels must be text
      (`shoe.lower()`), families reach more than 4 runners and unclaimed
      labels more than 3, the first summarised group drops `shoeChoice`
      and `bib` (visualize.py:97, a `KeyError` without a bib column), its
      x-axis is read from the column labels and fitted, and the trendlines
      are compared pairwise. Every group is fitted on the same axis, so the
      first drop or fit that raises is that of the first group. */
  method FitData(data: Frame, shoeChoices: seq<Cell>, pValue: (Entry, Entry) -> real)
    returns (r: Result<(seq<Entry>, seq<Comparison>)>)
    requires GroupingInput(data, PlotColumns(data)) && Distinct(shoeChoices)
    ensures (exists i :: 0 <= i < |shoeChoices| && !shoeChoices[i].Text?) ==> r == Err(AttributeError)
    ensures LabelTexts(shoeChoices).Some? ==>
      var trendlines := Trendlines(data, LabelTexts(shoeChoices).value, Families, FamilyMin, ShoeMin, PlotColumns(data));
      var axis := XAxis(PlotColumns(data));
      if trendlines != [] && BibColumn !in data.columns then r == Err(KeyError(BibColumn))
      else if trendlines != [] && axis.Err? then r == Err(axis.error)
      else if trendlines != [] && !Fittable(axis.value) then r == Err(PolyfitError(axis.value))
      else r == Ok((trendlines, Comparisons(trendlines, pValue)))
    ensures r.Ok? ==> Distinct(Names(r.value.0))
  {
    var labels := LabelTexts(shoeChoices);
    if labels.None? {
      return Err(AttributeError);
    }
    FamiliesWellFormed();
    var trendlines := GroupShoes(data, labels.value, Families, FamilyMin, ShoeMin, PlotColumns(data));
    if trendlines != [] {
      if BibColumn !in data.columns {
        return Err(KeyError(BibColumn));
      }
      var axis := XAxis(PlotColumns(data));
      if axis.Err? {
        return Err(axis.error);
      }
      if !Fittable(axis.value) {
        return Err(PolyfitError(axis.value));
      }
    }
    var comparisons := CompareTrendlines(trendlines, pValue);
    r := Ok((trendlines, comparisons));
  }
}
