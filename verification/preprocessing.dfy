/** `preprocess_data`: fill the missing aggregates, binarize the outcome,
    replace each categorical column by label-encoder codes fitted on the same
    table, and standard-scale the four numeric columns.
 */
module Preprocessing {
  import opened Options
  import opened Numbers
  import opened StringOrder
  import opened LabelEncoder
  import opened Table

  // ---------------------------------------------------------------------
  // Missing values

  /** A missing click total becomes 0; nothing else changes. */
  function FillClicks<C, L>(rows: seq<Row<C, L>>): (filled: seq<Row<C, L>>)
    ensures |filled| == |rows|
    ensures forall i :: 0 <= i < |rows| ==> filled[i].totalClicks.Some?
    ensures forall i :: 0 <= i < |rows| && rows[i].totalClicks.Some? ==> filled[i] == rows[i]
    ensures forall i :: 0 <= i < |rows| && rows[i].totalClicks.None? ==> filled[i] == rows[i].(totalClicks := Some(0.0))
  {
    seq(|rows|, i requires 0 <= i < |rows| =>
      if rows[i].totalClicks.None? then rows[i].(totalClicks := Some(0.0)) else rows[i])
  }

  /** The observed mean of the assessment score column. */
  function ScoreMean<C, L>(rows: seq<Row<C, L>>): Option<real> {
    ObservedMean(NumColumn(rows, AvgAssessmentScore))
  }

  /** A missing average score becomes the observed mean of the column in the
      same table; nothing else changes. */
  function FillScores<C, L>(rows: seq<Row<C, L>>): (filled: seq<Row<C, L>>)
    ensures |filled| == |rows|
    ensures forall i :: 0 <= i < |rows| && rows[i].avgAssessmentScore.Some? ==> filled[i] == rows[i]
    ensures forall i :: 0 <= i < |rows| && rows[i].avgAssessmentScore.None? ==>
      filled[i] == rows[i].(avgAssessmentScore := ScoreMean(rows))
  {
    var m := ScoreMean(rows);
    seq(|rows|, i requires 0 <= i < |rows| =>
      if rows[i].avgAssessmentScore.None? then rows[i].(avgAssessmentScore := m) else rows[i])
  }

  /** After filling, no score is missing exactly when the table is empty or
      holds at least one observed score: a column with no observed score has
      no mean to fill with and stays missing. */
  lemma FillScoresComplete<C, L>(rows: seq<Row<C, L>>)
    ensures (forall i :: 0 <= i < |rows| ==> FillScores(rows)[i].avgAssessmentScore.Some?)
        <==> (|rows| == 0 || exists j :: 0 <= j < |rows| && rows[j].avgAssessmentScore.Some?)
  {
    var col := NumColumn(rows, AvgAssessmentScore);
    ObservedMeanMissingIff(col);
    if |rows| > 0 && !exists j :: 0 <= j < |rows| && rows[j].avgAssessmentScore.Some? {
      assert AllMissing(col);
      assert FillScores(rows)[0].avgAssessmentScore.None?;
    }
    if exists j :: 0 <= j < |rows| && rows[j].avgAssessmentScore.Some? {
      var j :| 0 <= j < |rows| && rows[j].avgAssessmentScore.Some?;
      assert col[j].Some?;
    }
  }

  /** Filling with the mean keeps the mean of the score column. */
  lemma FillScoresKeepsMean<C, L>(rows: seq<Row<C, L>>)
    ensures ScoreMean(FillScores(rows)) == ScoreMean(rows)
  {
    var col := NumColumn(rows, AvgAssessmentScore);
    var m := ScoreMean(rows);
    assert NumColumn(FillScores(rows), AvgAssessmentScore) == FillMissing(col, m);
    if m.Some? {
      MeanImputationKeepsMean(col);
    } else {
      assert FillMissing(col, m) == col;
    }
  }

  // ---------------------------------------------------------------------
  // Outcome

  /** The binary target: 1 for a passing outcome, 0 for every other. */
  function Binarize(outcome: string): (target: nat)
    ensures target <= 1
    ensures target == 1 <==> outcome == "Pass" || outcome == "Distinction"
  {
    if outcome in ["Pass", "Distinction"] then 1 else 0
  }

  function BinarizeRows<C>(rows: seq<Row<C, string>>): (labelled: seq<Row<C, nat>>)
    ensures |labelled| == |rows|
    ensures forall i :: 0 <= i < |rows| ==> SameFeatures(rows[i], labelled[i])
    ensures forall i :: 0 <= i < |rows| ==> labelled[i].finalResult == Binarize(rows[i].finalResult)
  {
    seq(|rows|, i requires 0 <= i < |rows| =>
      var r := rows[i];
      Row(r.idStudent, r.gender, r.region, r.highestEducation, r.ageBand,
          r.numOfPrevAttempts, r.studiedCredits, r.totalClicks, r.avgAssessmentScore,
          Binarize(r.finalResult)))
  }

  // ---------------------------------------------------------------------
  // Categorical encoding

  /** The fitted classes of each categorical column. */
  datatype EncodingTable = EncodingTable(
    gender: seq<string>, region: seq<string>, highestEducation: seq<string>, ageBand: seq<string>)
  {
    function ClassesOf(c: Categorical): seq<string> {
      match c
      case Gender => gender
      case Region => region
      case HighestEducation => highestEducation
      case AgeBand => ageBand
    }
  }

  /** One label encoder fitted per categorical column of `rows`. */
  function Fit<L>(rows: seq<Row<string, L>>): (t: EncodingTable)
    ensures forall c :: StrictlySorted(t.ClassesOf(c))
    ensures forall c :: Elements(t.ClassesOf(c)) == Elements(CatColumn(rows, c))
  {
    var t := EncodingTable(
      Classes(CatColumn(rows, Gender)), Classes(CatColumn(rows, Region)),
      Classes(CatColumn(rows, HighestEducation)), Classes(CatColumn(rows, AgeBand)));
    TableOfClasses(rows, t);
    t
  }

  lemma TableOfClasses<L>(rows: seq<Row<string, L>>, t: EncodingTable)
    requires t == EncodingTable(
      Classes(CatColumn(rows, Gender)), Classes(CatColumn(rows, Region)),
      Classes(CatColumn(rows, HighestEducation)), Classes(CatColumn(rows, AgeBand)))
    ensures forall c :: t.ClassesOf(c) == Classes(CatColumn(rows, c))
  {
    forall c ensures t.ClassesOf(c) == Classes(CatColumn(rows, c)) {
      match c
      case Gender =>
      case Region =>
      case HighestEducation =>
      case AgeBand =>
    }
  }

  /** Every categorical value of `r` is among the classes of `t`. */
  predicate Known<L>(t: EncodingTable, r: Row<string, L>) {
    forall c :: Cat(r, c) in t.ClassesOf(c)
  }

  /** A row with each categorical value replaced by its code in `t`. */
  function EncodeRow<L>(t: EncodingTable, r: Row<string, L>): (e: Row<nat, L>)
    requires Known(t, r)
    ensures SameExceptCategorical(r, e)
    ensures forall c :: Cat(e, c) < |t.ClassesOf(c)| && t.ClassesOf(c)[Cat(e, c)] == Cat(r, c)
  {
    assert r.gender == Cat(r, Gender) && r.region == Cat(r, Region);
    assert r.highestEducation == Cat(r, HighestEducation) && r.ageBand == Cat(r, AgeBand);
    Row(r.idStudent,
        CodeOf(t.gender, r.gender), CodeOf(t.region, r.region),
        CodeOf(t.highestEducation, r.highestEducation), CodeOf(t.ageBand, r.ageBand),
        r.numOfPrevAttempts, r.studiedCredits, r.totalClicks, r.avgAssessmentScore, r.finalResult)
  }

  lemma FitKnowsRows<L>(rows: seq<Row<string, L>>)
    ensures forall i :: 0 <= i < |rows| ==> Known(Fit(rows), rows[i])
  {
    var t := Fit(rows);
    forall i, c | 0 <= i < |rows| ensures Cat(rows[i], c) in t.ClassesOf(c) {
      assert Cat(rows[i], c) == CatColumn(rows, c)[i];
      assert Cat(rows[i], c) in Elements(CatColumn(rows, c));
    }
  }

  /** Each categorical column replaced by the codes of a label encoder
      fitted on that same column. */
  function EncodeCategoricals<L>(rows: seq<Row<string, L>>): (encoded: seq<Row<nat, L>>)
    ensures |encoded| == |rows|
    ensures forall i :: 0 <= i < |rows| ==> SameExceptCategorical(rows[i], encoded[i])
    ensures forall i, c :: 0 <= i < |rows| ==>
      Cat(encoded[i], c) < |Fit(rows).ClassesOf(c)| && Fit(rows).ClassesOf(c)[Cat(encoded[i], c)] == Cat(rows[i], c)
  {
    FitKnowsRows(rows);
    EncodeRows(Fit(rows), rows)
  }

  /** Every row encoded with the same classes `t`. */
  function EncodeRows<L>(t: EncodingTable, rows: seq<Row<string, L>>): (encoded: seq<Row<nat, L>>)
    requires forall i :: 0 <= i < |rows| ==> Known(t, rows[i])
    ensures |encoded| == |rows|
    ensures forall i :: 0 <= i < |rows| ==> encoded[i] == EncodeRow(t, rows[i])
  {
    seq(|rows|, i requires 0 <= i < |rows| => EncodeRow(t, rows[i]))
  }

  /** One encoded cell is the code of the raw value among the classes
      fitted on its column. */
  lemma EncodedCell<L>(rows: seq<Row<string, L>>, c: Categorical, i: nat)
    requires i < |rows|
    ensures Cat(rows[i], c) in Classes(CatColumn(rows, c))
    ensures Cat(EncodeCategoricals(rows)[i], c) == CodeOf(Classes(CatColumn(rows, c)), Cat(rows[i], c))
  {
    var t := Fit(rows);
    FitKnowsRows(rows);
    assert EncodeCategoricals(rows)[i] == EncodeRow(t, rows[i]);
    assert t.ClassesOf(c) == Classes(CatColumn(rows, c));
    match c
    case Gender =>
    case Region =>
    case HighestEducation =>
    case AgeBand =>
  }

  /** Column by column, the encoding is the label encoder's `fit_transform`
      of that column; so codes lie below the number of distinct values in
      the column, equal values get equal codes, distinct values distinct
      codes, and codes follow the sorted order of the values. */
  lemma EncodedColumns<L>(rows: seq<Row<string, L>>, c: Categorical)
    ensures CatColumn(EncodeCategoricals(rows), c) == EncodeColumn(CatColumn(rows, c))
  {
    var col := CatColumn(rows, c);
    var encoded := CatColumn(EncodeCategoricals(rows), c);
    forall i | 0 <= i < |rows| ensures encoded[i] == EncodeColumn(col)[i] {
      EncodedCell(rows, c, i);
      EncodeColumnAt(col, i);
    }
  }

  /** Codes lie below the number of distinct values of their column, and
      two rows get the same code exactly when they hold the same value. */
  lemma EncodingFaithful<L>(rows: seq<Row<string, L>>, c: Categorical, i: nat, j: nat)
    requires i < |rows| && j < |rows|
    ensures Cat(EncodeCategoricals(rows)[i], c) < |Elements(CatColumn(rows, c))|
    ensures Cat(EncodeCategoricals(rows)[i], c) == Cat(EncodeCategoricals(rows)[j], c)
        <==> Cat(rows[i], c) == Cat(rows[j], c)
    ensures Cat(EncodeCategoricals(rows)[i], c) < Cat(EncodeCategoricals(rows)[j], c)
        <==> Less(Cat(rows[i], c), Cat(rows[j], c))
  {
    var col := CatColumn(rows, c);
    EncodedColumns(rows, c);
    assert CatColumn(EncodeCategoricals(rows), c)[i] == Cat(EncodeCategoricals(rows)[i], c);
    assert CatColumn(EncodeCategoricals(rows), c)[j] == Cat(EncodeCategoricals(rows)[j], c);
    EncodeColumnFaithful(col, i, j);
  }

  // ---------------------------------------------------------------------
  // Standard scaling

  /** The location and scale of one scaled column. */
  datatype ColumnScale = ColumnScale(mean: real, scale: real)

  /** A standard scaler's parameters for the four numeric columns. */
  datatype Scaler = Scaler(
    totalClicks: ColumnScale, avgAssessmentScore: ColumnScale,
    studiedCredits: ColumnScale, numOfPrevAttempts: ColumnScale)
  {
    function For(c: Numeric): ColumnScale {
      match c
      case TotalClicks => totalClicks
      case AvgAssessmentScore => avgAssessmentScore
      case StudiedCredits => studiedCredits
      case NumOfPrevAttempts => numOfPrevAttempts
    }

    predicate Valid() {
      && totalClicks.scale != 0.0 && avgAssessmentScore.scale != 0.0
      && studiedCredits.scale != 0.0 && numOfPrevAttempts.scale != 0.0
    }

    /** The scaler's means are the observed means of the columns of `rows`,
        as fitting computes them. */
    predicate CentredOn<C, L>(rows: seq<Row<C, L>>) {
      forall c :: ObservedMean(NumColumn(rows, c)) == Some(For(c).mean)
    }
  }

  function ScaleCell(p: ColumnScale, x: Option<real>): Option<real>
    requires p.scale != 0.0
  {
    Standardize(x, p.mean, p.scale)
  }

  /** A row with its four numeric columns scaled; the scaled values map back
      to the originals, and a missing value stays missing. */
  function ScaleRow<C, L>(s: Scaler, r: Row<C, L>): (scaled: Row<C, L>)
    requires s.Valid()
    ensures SameExceptNumeric(r, scaled)
    ensures forall c :: Num(scaled, c).Some? <==> Num(r, c).Some?
    ensures forall c :: Destandardize(Num(scaled, c), s.For(c).mean, s.For(c).scale) == Num(r, c)
  {
    var scaled := r.(
      totalClicks := ScaleCell(s.totalClicks, r.totalClicks),
      avgAssessmentScore := ScaleCell(s.avgAssessmentScore, r.avgAssessmentScore),
      studiedCredits := ScaleCell(s.studiedCredits, r.studiedCredits),
      numOfPrevAttempts := ScaleCell(s.numOfPrevAttempts, r.numOfPrevAttempts));
    assert forall c :: Num(scaled, c) == ScaleCell(s.For(c), Num(r, c));
    forall c ensures Destandardize(Num(scaled, c), s.For(c).mean, s.For(c).scale) == Num(r, c) {
      StandardizeRoundTrip(Num(r, c), s.For(c).mean, s.For(c).scale);
    }
    scaled
  }

  function ScaleRows<C, L>(s: Scaler, rows: seq<Row<C, L>>): (scaled: seq<Row<C, L>>)
    requires s.Valid()
    ensures |scaled| == |rows|
    ensures forall i :: 0 <= i < |rows| ==> scaled[i] == ScaleRow(s, rows[i])
  {
    seq(|rows|, i requires 0 <= i < |rows| => ScaleRow(s, rows[i]))
  }

  /** With the means fitted on the same table, every scaled column has
      observed mean zero. */
  lemma ScaledColumnsCentred<C, L>(s: Scaler, rows: seq<Row<C, L>>, c: Numeric)
    requires s.Valid() && s.CentredOn(rows)
    ensures ObservedMean(NumColumn(ScaleRows(s, rows), c)) == Some(0.0)
  {
    var p := s.For(c);
    var col := NumColumn(rows, c);
    ScaledColumnIs(s, rows, c);
    StandardizedColumnCentred(col, p.mean, p.scale);
  }

  lemma {:induction false} ScaledColumnIs<C, L>(s: Scaler, rows: seq<Row<C, L>>, c: Numeric)
    requires s.Valid()
    ensures NumColumn(ScaleRows(s, rows), c) == StandardizeColumn(NumColumn(rows, c), s.For(c).mean, s.For(c).scale)
    decreases |rows|
  {
    var p := s.For(c);
    if |rows| > 0 {
      var n := |rows| - 1;
      ScaledColumnIs(s, rows[..n], c);
      assert NumColumn(rows, c)[..n] == NumColumn(rows[..n], c);
      assert NumColumn(ScaleRows(s, rows), c)[..n] == NumColumn(ScaleRows(s, rows[..n]), c);
      assert Num(ScaleRow(s, rows[n]), c) == ScaleCell(p, Num(rows[n], c));
    }
  }

  // ---------------------------------------------------------------------
  // The whole step

  /** `preprocess_data` with the scaler's parameters given. */
  function PreprocessData(rows: seq<RawRow>, s: Scaler): (processed: seq<Row<nat, nat>>)
    requires s.Valid()
    ensures |processed| == |rows|
  {
    ScaleRows(s, EncodeCategoricals(BinarizeRows(FillScores(FillClicks(rows)))))
  }

  /** A raw row as it stands after filling and binarization, before
      encoding and scaling: a missing click total is 0, a missing score is the
      observed mean of the score column of `rows`, the outcome is 0 or 1. */
  function Prepared(rows: seq<RawRow>, r: RawRow): Row<string, nat> {
    Row(r.idStudent, r.gender, r.region, r.highestEducation, r.ageBand,
        r.numOfPrevAttempts, r.studiedCredits,
        Some(r.totalClicks.GetOr(0.0)),
        if r.avgAssessmentScore.Some? then r.avgAssessmentScore else ScoreMean(rows),
        Binarize(r.finalResult))
  }

  lemma PreparedRows(rows: seq<RawRow>)
    ensures var l := BinarizeRows(FillScores(FillClicks(rows)));
      && |l| == |rows|
      && forall i :: 0 <= i < |rows| ==> l[i] == Prepared(rows, rows[i])
  {
    var a := FillClicks(rows);
    assert NumColumn(a, AvgAssessmentScore) == NumColumn(rows, AvgAssessmentScore);
    var b := FillScores(a);
    var l := BinarizeRows(b);
    forall i | 0 <= i < |rows| ensures l[i] == Prepared(rows, rows[i]) {
      assert SameFeatures(b[i], l[i]);
    }
  }

  lemma PreparedColumns(rows: seq<RawRow>, c: Categorical)
    ensures CatColumn(BinarizeRows(FillScores(FillClicks(rows))), c) == CatColumn(rows, c)
  {
    PreparedRows(rows);
    var l := BinarizeRows(FillScores(FillClicks(rows)));
    forall i | 0 <= i < |rows| ensures Cat(l[i], c) == Cat(rows[i], c) {
      assert l[i] == Prepared(rows, rows[i]);
    }
  }

  /** Each row of `preprocess_data` is the prepared row encoded with the
      classes fitted on the raw table and then scaled. */
  lemma PreprocessedIs(rows: seq<RawRow>, s: Scaler, i: nat)
    requires s.Valid() && i < |rows|
    ensures Known(Fit(rows), Prepared(rows, rows[i]))
    ensures PreprocessData(rows, s)[i] == ScaleRow(s, EncodeRow(Fit(rows), Prepared(rows, rows[i])))
  {
    var l: seq<Row<string, nat>> := BinarizeRows(FillScores(FillClicks(rows)));
    PreparedRows(rows);
    FitAfterPreparation(rows);
    FitKnowsRows(l);
    var d := EncodeCategoricals(l);
    assert d[i] == EncodeRow(Fit(l), l[i]);
    assert PreprocessData(rows, s) == ScaleRows(s, d);
  }

  /** Filling and binarization leave the categorical columns, hence the
      fitted classes, as they were. */
  lemma FitAfterPreparation(rows: seq<RawRow>)
    ensures Fit(BinarizeRows(FillScores(FillClicks(rows)))) == Fit(rows)
  {
    PreparedColumns(rows, Gender);
    PreparedColumns(rows, Region);
    PreparedColumns(rows, HighestEducation);
    PreparedColumns(rows, AgeBand);
  }

  /** The same student stays in the same place, and the outcome becomes 1
      exactly for a passing outcome and 0 otherwise. */
  lemma PreprocessDataOutcome(rows: seq<RawRow>, s: Scaler, i: nat)
    requires s.Valid() && i < |rows|
    ensures PreprocessData(rows, s)[i].idStudent == rows[i].idStudent
    ensures PreprocessData(rows, s)[i].finalResult <= 1
    ensures PreprocessData(rows, s)[i].finalResult == 1
        <==> rows[i].finalResult == "Pass" || rows[i].finalResult == "Distinction"
  {
    PreprocessedIs(rows, s, i);
  }

  /** Each categorical value becomes a code below the number of distinct
      values of its column that decodes back to it through the column's
      sorted classes. */
  lemma PreprocessDataCategorical(rows: seq<RawRow>, s: Scaler, i: nat, c: Categorical)
    requires s.Valid() && i < |rows|
    ensures Cat(PreprocessData(rows, s)[i], c) < |Elements(CatColumn(rows, c))|
    ensures Cat(PreprocessData(rows, s)[i], c) < |Classes(CatColumn(rows, c))|
         && Classes(CatColumn(rows, c))[Cat(PreprocessData(rows, s)[i], c)] == Cat(rows[i], c)
  {
    PreprocessedIs(rows, s, i);
    ClassCount(CatColumn(rows, c));
    FitClasses(rows, c);
    PreparedCat(rows, rows[i], c);
    ScaledCode(Fit(rows), s, Prepared(rows, rows[i]), c);
  }

  lemma FitClasses<L>(rows: seq<Row<string, L>>, c: Categorical)
    ensures Fit(rows).ClassesOf(c) == Classes(CatColumn(rows, c))
  {
  }

  lemma PreparedCat(rows: seq<RawRow>, r: RawRow, c: Categorical)
    ensures Cat(Prepared(rows, r), c) == Cat(r, c)
  {
  }

  lemma ScaledCode<L>(t: EncodingTable, s: Scaler, r: Row<string, L>, c: Categorical)
    requires s.Valid() && Known(t, r)
    ensures Cat(ScaleRow(s, EncodeRow(t, r)), c) < |t.ClassesOf(c)|
    ensures t.ClassesOf(c)[Cat(ScaleRow(s, EncodeRow(t, r)), c)] == Cat(r, c)
  {
    var e := EncodeRow(t, r);
    assert Cat(ScaleRow(s, e), c) == Cat(e, c) by {
      assert SameExceptNumeric(e, ScaleRow(s, e));
    }
  }

  /** The scaled numeric values map back to the filled ones: a missing click
      total to 0, a missing score to the observed mean of the score column,
      every present value to itself. */
  lemma PreprocessDataNumeric(rows: seq<RawRow>, s: Scaler, i: nat)
    requires s.Valid() && i < |rows|
    ensures var p, r := PreprocessData(rows, s)[i], rows[i];
      && Destandardize(p.totalClicks, s.totalClicks.mean, s.totalClicks.scale) == Some(r.totalClicks.GetOr(0.0))
      && Destandardize(p.avgAssessmentScore, s.avgAssessmentScore.mean, s.avgAssessmentScore.scale)
         == (if r.avgAssessmentScore.Some? then r.avgAssessmentScore else ScoreMean(rows))
      && Destandardize(p.studiedCredits, s.studiedCredits.mean, s.studiedCredits.scale) == r.studiedCredits
      && Destandardize(p.numOfPrevAttempts, s.numOfPrevAttempts.mean, s.numOfPrevAttempts.scale) == r.numOfPrevAttempts
  {
    PreprocessedIs(rows, s, i);
    ScaledNumbers(Fit(rows), s, Prepared(rows, rows[i]));
  }

  /** Scaling an encoded row can be undone column by column. */
  lemma ScaledNumbers<L>(t: EncodingTable, s: Scaler, r: Row<string, L>)
    requires s.Valid() && Known(t, r)
    ensures var p := ScaleRow(s, EncodeRow(t, r));
      && Destandardize(p.totalClicks, s.totalClicks.mean, s.totalClicks.scale) == r.totalClicks
      && Destandardize(p.avgAssessmentScore, s.avgAssessmentScore.mean, s.avgAssessmentScore.scale) == r.avgAssessmentScore
      && Destandardize(p.studiedCredits, s.studiedCredits.mean, s.studiedCredits.scale) == r.studiedCredits
      && Destandardize(p.numOfPrevAttempts, s.numOfPrevAttempts.mean, s.numOfPrevAttempts.scale) == r.numOfPrevAttempts
  {
    var e := EncodeRow(t, r);
    var p := ScaleRow(s, e);
    assert SameExceptCategorical(r, e);
    assert Num(p, TotalClicks) == p.totalClicks && Num(e, TotalClicks) == e.totalClicks;
    assert Num(p, AvgAssessmentScore) == p.avgAssessmentScore && Num(e, AvgAssessmentScore) == e.avgAssessmentScore;
    assert Num(p, StudiedCredits) == p.studiedCredits && Num(e, StudiedCredits) == e.studiedCredits;
    assert Num(p, NumOfPrevAttempts) == p.numOfPrevAttempts && Num(e, NumOfPrevAttempts) == e.numOfPrevAttempts;
  }

  /** After `preprocess_data` no click total is missing, and no score is
      missing as soon as one score was observed. */
  lemma PreprocessDataComplete(rows: seq<RawRow>, s: Scaler)
    requires s.Valid()
    ensures forall i :: 0 <= i < |rows| ==> PreprocessData(rows, s)[i].totalClicks.Some?
    ensures (exists j :: 0 <= j < |rows| && rows[j].avgAssessmentScore.Some?) ==>
      forall i :: 0 <= i < |rows| ==> PreprocessData(rows, s)[i].avgAssessmentScore.Some?
  {
    if exists j :: 0 <= j < |rows| && rows[j].avgAssessmentScore.Some? {
      var j :| 0 <= j < |rows| && rows[j].avgAssessmentScore.Some?;
      var col := NumColumn(rows, AvgAssessmentScore);
      assert col[j].Some?;
      ObservedMeanMissingIff(col);
    }
    forall i | 0 <= i < |rows|
      ensures PreprocessData(rows, s)[i].totalClicks.Some?
      ensures ScoreMean(rows).Some? ==> PreprocessData(rows, s)[i].avgAssessmentScore.Some?
    {
      PreprocessDataNumeric(rows, s, i);
    }
  }
}
