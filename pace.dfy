/** Pace-profile construction (src/data/buildKMH.py): cumulative checkpoint
    seconds become one segment speed per checkpoint, and speeds become a
    percent change against the 5K speed. Both passes write into a copy of
    their input frame; frames are values here, so the input is untouched by
    construction. */
module Pace {
  import opened Seqs
  import opened Frames

  /** The checkpoint labels of the split table and their distance from the
      start in metres, in course order. */
  const Checkpoints: seq<string> := ["5K", "10K", "15K", "20K", "25K", "30K", "35K", "40K", "Finish Net"]
  const Distances: seq<int> := [5000, 10000, 15000, 20000, 25000, 30000, 35000, 40000, 42200]
  /** The column dropped before the speed pass. */
  const HalfColumn: string := "HALF"
  /** The reference checkpoint of the percent pass. */
  const BaseCheckpoint: string := "5K"

  /** The schema is a strictly increasing course from 5000 m at 5K to 42200 m at the finish. */
  lemma CheckpointSchema()
    ensures |Checkpoints| == |Distances| == 9 && Distinct(Checkpoints)
    ensures Checkpoints[0] == BaseCheckpoint && Distances[0] == 5000
    ensures Checkpoints[8] == "Finish Net" && Distances[8] == 42200
    ensures forall i, j :: 0 <= i < j < |Distances| ==> Distances[i] < Distances[j]
    ensures HalfColumn !in Checkpoints
  {
  }

  /** Every segment has a positive length. */
  lemma SegmentLengthPositive(i: nat)
    requires i < |Checkpoints|
    ensures |Distances| == |Checkpoints| && StartDistance(i) < Distances[i]
  {
    assert forall k :: 0 < k < |Distances| ==> Distances[k - 1] < Distances[k];
  }

  /** The dropped column is none of the checkpoints. */
  lemma HalfIsNoCheckpoint()
    ensures forall i :: 0 <= i < |Checkpoints| ==> Checkpoints[i] !in [HalfColumn]
  {
  }

  /** A row with a number in every checkpoint column. */
  predicate Timed(r: Row) {
    forall i :: 0 <= i < |Checkpoints| ==> Checkpoints[i] in r && IsNumber(r[Checkpoints[i]])
  }

  /** The number a row holds at checkpoint `i`. */
  function At(r: Row, i: nat): real
    requires Timed(r) && i < |Checkpoints|
  {
    NumberValue(r[Checkpoints[i]])
  }

  /** Distance and elapsed time at the point a segment starts: the start
      line (0 m, 0 s) for the first checkpoint, the previous checkpoint otherwise. */
  function StartDistance(i: nat): int
    requires i < |Distances|
  {
    if i == 0 then 0 else Distances[i - 1]
  }

  function StartTime(r: Row, i: nat): real
    requires Timed(r) && i < |Checkpoints|
  {
    if i == 0 then 0.0 else At(r, i - 1)
  }

  /** Every segment takes a positive time (the code does not guard against zero deltas). */
  predicate Increasing(r: Row)
    requires Timed(r)
  {
    forall i :: 0 <= i < |Checkpoints| ==> StartTime(r, i) < At(r, i)
  }

  /** A frame of cumulative checkpoint seconds, as the speed pass reads it. */
  predicate TimesFrame(df: Frame) {
    && Valid(df)
    && (forall i :: 0 <= i < |Checkpoints| ==> Checkpoints[i] in df.columns)
    && forall k :: 0 <= k < |df.rows| ==> Timed(df.rows[k]) && Increasing(df.rows[k])
  }

  /** The speed over the segment that ends at checkpoint `i`, in metres per second. */
  function SegmentSpeed(r: Row, i: nat): (v: real)
    requires Timed(r) && Increasing(r) && i < |Checkpoints|
    ensures v > 0.0
  {
    SegmentLengthPositive(i);
    (Distances[i] - StartDistance(i)) as real / (At(r, i) - StartTime(r, i))
  }

  /** The first segment is the first distance over the first time: nothing
      but that checkpoint's own time enters it. */
  lemma FirstSegmentUsesOwnTime(r1: Row, r2: Row)
    requires Timed(r1) && Increasing(r1) && Timed(r2) && Increasing(r2)
    requires At(r1, 0) == At(r2, 0)
    ensures SegmentSpeed(r1, 0) == SegmentSpeed(r2, 0) == 5000.0 / At(r1, 0)
  {
  }

  /** Speeds depend on the checkpoint columns only. */
  lemma SpeedsReadCheckpointsOnly(r1: Row, r2: Row)
    requires Timed(r1) && Increasing(r1) && Timed(r2)
    requires forall i :: 0 <= i < |Checkpoints| ==> r1[Checkpoints[i]] == r2[Checkpoints[i]]
    ensures Increasing(r2)
    ensures forall i :: 0 <= i < |Checkpoints| ==> SegmentSpeed(r1, i) == SegmentSpeed(r2, i)
  {
    assert forall i :: 0 <= i < |Checkpoints| ==> At(r1, i) == At(r2, i);
  }

  /** `out` is `df` with the first `i` checkpoint columns replaced by segment speeds. */
  predicate SpeedsWritten(out: Frame, df: Frame, i: nat)
    requires TimesFrame(df) && i <= |Checkpoints|
  {
    && Valid(out) && out.columns == df.columns && |out.rows| == |df.rows|
    && (forall k, j :: 0 <= k < |df.rows| && 0 <= j < i ==>
          Checkpoints[j] in out.rows[k] && out.rows[k][Checkpoints[j]] == Real(SegmentSpeed(df.rows[k], j)))
    && (forall k, c :: 0 <= k < |df.rows| && c in df.rows[k] && c !in Checkpoints[..i] ==>
          c in out.rows[k] && out.rows[k][c] == df.rows[k][c])
  }

  /** The column the speed pass writes for checkpoint `i` (buildKMH.py:35-45):
      the first distance over the first time, otherwise the distance
      between consecutive checkpoints over the time between them; each cell
      is that row's segment speed. */
  function SpeedColumn(df: Frame, i: nat): (speeds: seq<Cell>)
    requires TimesFrame(df) && i < |Checkpoints|
    ensures |speeds| == |df.rows|
    ensures forall k :: 0 <= k < |df.rows| ==> speeds[k] == Real(SegmentSpeed(df.rows[k], i))
  {
    var n := |df.rows|;
    SegmentLengthPositive(i);
    if i == 0 then
      seq(n, k requires 0 <= k < n => Real(Distances[i] as real / At(df.rows[k], i)))
    else
      var distanceDiff := Distances[i] - Distances[i - 1];
      seq(n, k requires 0 <= k < n => Real(distanceDiff as real / (At(df.rows[k], i) - At(df.rows[k], i - 1))))
  }

  lemma SpeedStep(out: Frame, df: Frame, i: nat, speeds: seq<Cell>)
    requires TimesFrame(df) && i < |Checkpoints| && SpeedsWritten(out, df, i)
    requires |speeds| == |df.rows|
    requires forall k :: 0 <= k < |df.rows| ==> speeds[k] == Real(SegmentSpeed(df.rows[k], i))
    ensures SpeedsWritten(SetColumn(out, Checkpoints[i], speeds), df, i + 1)
  {
    CheckpointSchema();
    var g := SetColumn(out, Checkpoints[i], speeds);
    forall k, j | 0 <= k < |df.rows| && 0 <= j < i + 1
      ensures Checkpoints[j] in g.rows[k] && g.rows[k][Checkpoints[j]] == Real(SegmentSpeed(df.rows[k], j))
    {
      if j < i {
        assert Checkpoints[j] != Checkpoints[i];
      }
    }
    assert Checkpoints[..i + 1] == Checkpoints[..i] + [Checkpoints[i]];
    forall k, c | 0 <= k < |df.rows| && c in df.rows[k] && c !in Checkpoints[..i + 1]
      ensures c in g.rows[k] && g.rows[k][c] == df.rows[k][c]
    {
      assert c !in Checkpoints[..i] && c != Checkpoints[i];
    }
  }

  /** The speed pass (buildKMH.py:31-45): every checkpoint column of a copy
      of `df` is overwritten with that segment's speed, computed from the
      times in `df` itself; all other columns are copied unchanged. */
  method ComputeSpeeds(df: Frame) returns (dfSpeed: Frame)
    requires TimesFrame(df)
    ensures SpeedsWritten(dfSpeed, df, |Checkpoints|)
    ensures Valid(dfSpeed) && dfSpeed.columns == df.columns && |dfSpeed.rows| == |df.rows|
    ensures forall k, i :: 0 <= k < |df.rows| && 0 <= i < |Checkpoints| ==>
      Checkpoints[i] in dfSpeed.rows[k] && dfSpeed.rows[k][Checkpoints[i]] == Real(SegmentSpeed(df.rows[k], i))
    ensures forall k, c :: 0 <= k < |df.rows| && c in df.rows[k] && c !in Checkpoints ==>
      c in dfSpeed.rows[k] && dfSpeed.rows[k][c] == df.rows[k][c]
  {
    dfSpeed := df;
    for i := 0 to |Checkpoints|
      invariant SpeedsWritten(dfSpeed, df, i)
    {
      var current := Checkpoints[i];
      var speeds := SpeedColumn(df, i);
      SpeedStep(dfSpeed, df, i, speeds);
      dfSpeed := SetColumn(dfSpeed, current, speeds);
    }
    assert Checkpoints[..|Checkpoints|] == Checkpoints;
  }

  /** Percent change of `speed` against `base`; negative means slower. */
  function PercentChange(speed: real, base: real): (pct: real)
    requires base != 0.0
    ensures base * (1.0 + pct / 100.0) == speed
  {
    (speed - base) / base * 100.0
  }

  /** The baseline itself has a percent change of exactly zero. */
  lemma PercentAtBase(base: real)
    requires base != 0.0
    ensures PercentChange(base, base) == 0.0
  {
  }

  /** Zero exactly at the baseline speed. */
  lemma PercentZeroIff(speed: real, base: real)
    requires base != 0.0
    ensures PercentChange(speed, base) == 0.0 <==> speed == base
  {
  }

  /** With a positive baseline the sign of the change is the sign of
      `speed - base`. */
  lemma PercentSign(speed: real, base: real)
    requires base > 0.0
    ensures PercentChange(speed, base) < 0.0 <==> speed < base
    ensures PercentChange(speed, base) > 0.0 <==> speed > base
  {
  }

  /** Undoing the percent change recovers the speed exactly. */
  lemma PercentRoundTrip(speed: real, base: real)
    requires base != 0.0
    ensures base * (1.0 + PercentChange(speed, base) / 100.0) == speed
  {
  }

  /** A frame whose checkpoint columns hold numbers and whose 5K number is non-zero. */
  predicate SpeedFrame(f: Frame) {
    && Valid(f)
    && (forall i :: 0 <= i < |Checkpoints| ==> Checkpoints[i] in f.columns)
    && forall k :: 0 <= k < |f.rows| ==> Timed(f.rows[k]) && At(f.rows[k], 0) != 0.0
  }

  /** `out` is `sp` with the first `i` checkpoint columns replaced by percent changes. */
  predicate PercentsWritten(out: Frame, sp: Frame, i: nat)
    requires SpeedFrame(sp) && i <= |Checkpoints|
  {
    && Valid(out) && out.columns == sp.columns && |out.rows| == |sp.rows|
    && (forall k, j :: 0 <= k < |sp.rows| && 0 <= j < i ==>
          Checkpoints[j] in out.rows[k] &&
          out.rows[k][Checkpoints[j]] == Real(PercentChange(At(sp.rows[k], j), At(sp.rows[k], 0))))
    && (forall k, c :: 0 <= k < |sp.rows| && c in sp.rows[k] && c !in Checkpoints[..i] ==>
          c in out.rows[k] && out.rows[k][c] == sp.rows[k][c])
  }

  lemma PercentStep(out: Frame, sp: Frame, i: nat, percents: seq<Cell>)
    requires SpeedFrame(sp) && i < |Checkpoints| && PercentsWritten(out, sp, i)
    requires |percents| == |sp.rows|
    requires forall k :: 0 <= k < |sp.rows| ==> percents[k] == Real(PercentChange(At(sp.rows[k], i), At(sp.rows[k], 0)))
    ensures PercentsWritten(SetColumn(out, Checkpoints[i], percents), sp, i + 1)
  {
    CheckpointSchema();
    var g := SetColumn(out, Checkpoints[i], percents);
    forall k, j | 0 <= k < |sp.rows| && 0 <= j < i + 1
      ensures Checkpoints[j] in g.rows[k] && g.rows[k][Checkpoints[j]] == Real(PercentChange(At(sp.rows[k], j), At(sp.rows[k], 0)))
    {
      if j < i {
        assert Checkpoints[j] != Checkpoints[i];
      }
    }
    assert Checkpoints[..i + 1] == Checkpoints[..i] + [Checkpoints[i]];
    forall k, c | 0 <= k < |sp.rows| && c in sp.rows[k] && c !in Checkpoints[..i + 1]
      ensures c in g.rows[k] && g.rows[k][c] == sp.rows[k][c]
    {
      assert c !in Checkpoints[..i] && c != Checkpoints[i];
    }
  }

  /** The percent pass (buildKMH.py:62-68): every checkpoint column of a copy
      becomes its percent change against that row's 5K speed, read from the
      speed frame (so the 5K column of the copy is zero); other columns are
      copied unchanged. */
  method ComputePercents(dfSpeed: Frame) returns (dfPercent: Frame)
    requires SpeedFrame(dfSpeed)
    ensures Valid(dfPercent) && dfPercent.columns == dfSpeed.columns && |dfPercent.rows| == |dfSpeed.rows|
    ensures forall k, i :: 0 <= k < |dfSpeed.rows| && 0 <= i < |Checkpoints| ==>
      Checkpoints[i] in dfPercent.rows[k] &&
      dfPercent.rows[k][Checkpoints[i]] == Real(PercentChange(At(dfSpeed.rows[k], i), At(dfSpeed.rows[k], 0)))
    ensures forall k :: 0 <= k < |dfSpeed.rows| ==>
      BaseCheckpoint in dfPercent.rows[k] && dfPercent.rows[k][BaseCheckpoint] == Real(0.0)
    ensures forall k, c :: 0 <= k < |dfSpeed.rows| && c in dfSpeed.rows[k] && c !in Checkpoints ==>
      c in dfPercent.rows[k] && dfPercent.rows[k][c] == dfSpeed.rows[k][c]
  {
    CheckpointSchema();
    var n := |dfSpeed.rows|;
    dfPercent := dfSpeed;
    var baseSpeed := Column(dfSpeed, BaseCheckpoint);
    for i := 0 to |Checkpoints|
      invariant PercentsWritten(dfPercent, dfSpeed, i)
    {
      var checkpoint := Checkpoints[i];
      var percents := seq(n, k requires 0 <= k < n =>
        Real((At(dfSpeed.rows[k], i) - NumberValue(baseSpeed[k])) / NumberValue(baseSpeed[k]) * 100.0));
      PercentStep(dfPercent, dfSpeed, i, percents);
      dfPercent := SetColumn(dfPercent, checkpoint, percents);
    }
    assert Checkpoints[..|Checkpoints|] == Checkpoints;
    forall k | 0 <= k < n ensures dfPercent.rows[k][BaseCheckpoint] == Real(0.0) {
      PercentAtBase(At(dfSpeed.rows[k], 0));
    }
  }

  /** The time a runner needs for the first `i + 1` segments at the speeds
      of a speed row. */
  function ElapsedAtSpeeds(s: Row, i: nat): real
    requires Timed(s) && i < |Checkpoints|
    requires forall j :: 0 <= j < |Checkpoints| ==> At(s, j) > 0.0
  {
    (if i == 0 then 0.0 else ElapsedAtSpeeds(s, i - 1))
      + (Distances[i] - StartDistance(i)) as real / At(s, i)
  }

  lemma DivideBySpeed(d: real, t: real)
    requires d > 0.0 && t > 0.0
    ensures d / (d / t) == t
  {
    var v := d / t;
    assert v * t == d;
  }

  /** Speeds determine the split times: covering each segment at the speed
      the pass computed takes exactly the recorded time, so summing
      segment times reproduces every cumulative checkpoint time. */
  lemma {:induction false} SpeedsDetermineTimes(r: Row, s: Row, i: nat)
    requires Timed(r) && Increasing(r) && Timed(s) && i < |Checkpoints|
    requires forall j :: 0 <= j < |Checkpoints| ==> s[Checkpoints[j]] == Real(SegmentSpeed(r, j))
    ensures forall j :: 0 <= j < |Checkpoints| ==> At(s, j) > 0.0
    ensures ElapsedAtSpeeds(s, i) == At(r, i)
  {
    assert forall j :: 0 <= j < |Checkpoints| ==> At(s, j) == SegmentSpeed(r, j);
    CheckpointSchema();
    DivideBySpeed((Distances[i] - StartDistance(i)) as real, At(r, i) - StartTime(r, i));
    if i > 0 {
      SpeedsDetermineTimes(r, s, i - 1);
    }
  }

  /** Dropping a non-checkpoint column keeps a times frame and its speeds. */
  lemma DropKeepsTimes(raw: Frame, df: Frame, drop: seq<string>)
    requires TimesFrame(raw) && DropColumns(raw, drop) == Ok(df)
    requires forall i :: 0 <= i < |Checkpoints| ==> Checkpoints[i] !in drop
    ensures TimesFrame(df) && |df.rows| == |raw.rows|
    ensures forall k, i :: 0 <= k < |raw.rows| && 0 <= i < |Checkpoints| ==>
      SegmentSpeed(raw.rows[k], i) == SegmentSpeed(df.rows[k], i)
  {
    forall k | 0 <= k < |raw.rows|
      ensures Timed(df.rows[k]) && Increasing(df.rows[k])
      ensures forall i :: 0 <= i < |Checkpoints| ==> SegmentSpeed(raw.rows[k], i) == SegmentSpeed(df.rows[k], i)
    {
      SpeedsReadCheckpointsOnly(raw.rows[k], df.rows[k]);
    }
  }

  /** The speed frame the speed pass produces is a valid input of the percent pass. */
  lemma SpeedsFeedPercents(df: Frame, dfSpeed: Frame)
    requires TimesFrame(df) && SpeedsWritten(dfSpeed, df, |Checkpoints|)
    ensures SpeedFrame(dfSpeed)
    ensures forall k, i :: 0 <= k < |df.rows| && 0 <= i < |Checkpoints| ==>
      At(dfSpeed.rows[k], i) == SegmentSpeed(df.rows[k], i)
  {
  }

  /** The whole script on one split frame (buildKMH.py:24-68): drop HALF,
      then the speed pass, then the percent pass. Dropping a missing HALF
      column raises, as pandas does. Both passes work on copies, so bib,
      name and every other non-checkpoint cell reach both outputs. */
  method BuildProfiles(raw: Frame) returns (r: Result<(Frame, Frame)>)
    requires TimesFrame(raw)
    ensures r.Ok? <==> HalfColumn in raw.columns
    ensures r.Ok? ==> r.value.0.columns == Without(raw.columns, [HalfColumn]) == r.value.1.columns
    ensures r.Ok? ==> |r.value.0.rows| == |raw.rows| == |r.value.1.rows|
    ensures r.Ok? ==> forall k, i :: 0 <= k < |raw.rows| && 0 <= i < |Checkpoints| ==>
      Checkpoints[i] in r.value.0.rows[k] && Checkpoints[i] in r.value.1.rows[k] &&
      r.value.0.rows[k][Checkpoints[i]] == Real(SegmentSpeed(raw.rows[k], i)) &&
      r.value.1.rows[k][Checkpoints[i]] == Real(PercentChange(SegmentSpeed(raw.rows[k], i), SegmentSpeed(raw.rows[k], 0)))
    ensures r.Ok? ==> forall k, c :: 0 <= k < |raw.rows| && c in raw.rows[k] && c != HalfColumn && c !in Checkpoints ==>
      c in r.value.0.rows[k] && c in r.value.1.rows[k] &&
      r.value.0.rows[k][c] == raw.rows[k][c] == r.value.1.rows[k][c]
  {
    HalfIsNoCheckpoint();
    var dropped := DropColumns(raw, [HalfColumn]);
    if dropped.Err? {
      return Err(dropped.error);
    }
    var df := dropped.value;
    DropKeepsTimes(raw, df, [HalfColumn]);
    var dfSpeed := ComputeSpeeds(df);
    SpeedsFeedPercents(df, dfSpeed);
    var dfPercent := ComputePercents(dfSpeed);
    r := Ok((dfSpeed, dfPercent));
  }
}
