/** The flat student table that the loader produces and the preprocessor
    rewrites: one row per student record, with the columns the pipeline uses.
 */
module Table {
  import opened Options

  /** One row of the student table. The categorical cells have type `C`
      (strings before encoding, integer codes after) and the outcome has type
      `L` (the raw outcome string before binarization, 0 or 1 after). Every
      numeric cell may be missing. */
  datatype Row<C, L> = Row(
    idStudent: int,
    gender: C,
    region: C,
    highestEducation: C,
    ageBand: C,
    numOfPrevAttempts: Option<real>,
    studiedCredits: Option<real>,
    totalClicks: Option<real>,
    avgAssessmentScore: Option<real>,
    finalResult: L)

  type RawRow = Row<string, string>

  /** The four categorical columns. */
  datatype Categorical = Gender | Region | HighestEducation | AgeBand

  /** The four numeric columns that are scaled. */
  datatype Numeric = TotalClicks | AvgAssessmentScore | StudiedCredits | NumOfPrevAttempts

  function Cat<C, L>(r: Row<C, L>, c: Categorical): C {
    match c
    case Gender => r.gender
    case Region => r.region
    case HighestEducation => r.highestEducation
    case AgeBand => r.ageBand
  }

  function Num<C, L>(r: Row<C, L>, c: Numeric): Option<real> {
    match c
    case TotalClicks => r.totalClicks
    case AvgAssessmentScore => r.avgAssessmentScore
    case StudiedCredits => r.studiedCredits
    case NumOfPrevAttempts => r.numOfPrevAttempts
  }

  function CatColumn<C, L>(rows: seq<Row<C, L>>, c: Categorical): (col: seq<C>)
    ensures |col| == |rows|
    ensures forall i :: 0 <= i < |rows| ==> col[i] == Cat(rows[i], c)
  {
    seq(|rows|, i requires 0 <= i < |rows| => Cat(rows[i], c))
  }

  function NumColumn<C, L>(rows: seq<Row<C, L>>, c: Numeric): (col: seq<Option<real>>)
    ensures |col| == |rows|
    ensures forall i :: 0 <= i < |rows| ==> col[i] == Num(rows[i], c)
  {
    seq(|rows|, i requires 0 <= i < |rows| => Num(rows[i], c))
  }

  /** `a` and `b` agree on the student and every feature column; only the
      outcome may differ. */
  predicate SameFeatures<C(==), L1, L2>(a: Row<C, L1>, b: Row<C, L2>) {
    && a.idStudent == b.idStudent
    && a.gender == b.gender && a.region == b.region
    && a.highestEducation == b.highestEducation && a.ageBand == b.ageBand
    && a.numOfPrevAttempts == b.numOfPrevAttempts && a.studiedCredits == b.studiedCredits
    && a.totalClicks == b.totalClicks && a.avgAssessmentScore == b.avgAssessmentScore
  }

  /** `a` and `b` agree on everything but the categorical columns. */
  predicate SameExceptCategorical<C1, C2, L(==)>(a: Row<C1, L>, b: Row<C2, L>) {
    && a.idStudent == b.idStudent
    && a.numOfPrevAttempts == b.numOfPrevAttempts && a.studiedCredits == b.studiedCredits
    && a.totalClicks == b.totalClicks && a.avgAssessmentScore == b.avgAssessmentScore
    && a.finalResult == b.finalResult
  }

  /** `a` and `b` agree on everything but the four scaled numeric columns. */
  predicate SameExceptNumeric<C(==), L(==)>(a: Row<C, L>, b: Row<C, L>) {
    && a.idStudent == b.idStudent
    && a.gender == b.gender && a.region == b.region
    && a.highestEducation == b.highestEducation && a.ageBand == b.ageBand
    && a.finalResult == b.finalResult
  }
}
