/** The form handler of the web front end: reading the eight submitted
    fields, the fixed string-to-code maps it applies to the categorical ones,
    and the label shown for the predicted class. Alongside the maps as
    written, an encoding through the classes fitted on the training table.
 */
module FormEncoding {
  import opened Options
  import opened Numbers
  import opened StringOrder
  import opened LabelEncoder
  import opened Table
  import opened Preprocessing

  // ---------------------------------------------------------------------
  // Reading the form

  /** The eight fields of one prediction request. */
  datatype FormInput = FormInput(
    gender: string,
    region: string,
    highestEducation: string,
    ageBand: string,
    numOfPrevAttempts: real,
    studiedCredits: real,
    totalClicks: real,
    avgAssessmentScore: real)

  /** Why a request cannot be encoded: a field is absent from the form, a
      numeric field does not parse, or (only in the encoding through fitted
      classes) a categorical value was never seen in training. */
  datatype FormError =
    | MissingField(field: string)
    | NotANumber(field: string)
    | UnknownCategory(field: string)

  /** The form's field names in the order the handler reads them; the last
      four are parsed as numbers. */
  const Fields: seq<string> := [
    "gender", "region", "highest_education", "age_band",
    "num_of_prev_attempts", "studied_credits", "total_clicks", "avg_assessment_score"]

  /** Field `j` cannot be read: it is absent, or it is numeric and its text
      does not parse. */
  predicate FieldFails(form: map<string, string>, parse: string -> Option<real>, j: nat)
    requires j < |Fields|
  {
    Fields[j] !in form || (j >= 4 && parse(form[Fields[j]]).None?)
  }

  /** The error raised by field `j` when it cannot be read. */
  function FieldError(form: map<string, string>, j: nat): FormError
    requires j < |Fields|
  {
    if Fields[j] !in form then MissingField(Fields[j]) else NotANumber(Fields[j])
  }

  function Text(form: map<string, string>, name: string): Result<string, FormError> {
    if name in form then Success(form[name]) else Failure(MissingField(name))
  }

  function Number(form: map<string, string>, name: string, parse: string -> Option<real>): Result<real, FormError> {
    if name !in form then Failure(MissingField(name))
    else match parse(form[name])
      case Some(x) => Success(x)
      case None => Failure(NotANumber(name))
  }

  /** The request record built from the submitted form. Fields are read in
      order and the first one that is absent or, for the numeric ones, does
      not parse ends the request with that error; other keys are ignored.
      `parse` stands for the number parser. */
  function ReadForm(form: map<string, string>, parse: string -> Option<real>): (r: Result<FormInput, FormError>)
    ensures r.Success? <==> forall j :: 0 <= j < |Fields| ==> !FieldFails(form, parse, j)
    ensures r.Success? ==>
      && "gender" in form && r.value.gender == form["gender"]
      && "region" in form && r.value.region == form["region"]
      && "highest_education" in form && r.value.highestEducation == form["highest_education"]
      && "age_band" in form && r.value.ageBand == form["age_band"]
      && "num_of_prev_attempts" in form && Some(r.value.numOfPrevAttempts) == parse(form["num_of_prev_attempts"])
      && "studied_credits" in form && Some(r.value.studiedCredits) == parse(form["studied_credits"])
      && "total_clicks" in form && Some(r.value.totalClicks) == parse(form["total_clicks"])
      && "avg_assessment_score" in form && Some(r.value.avgAssessmentScore) == parse(form["avg_assessment_score"])
  {
    var gender := Text(form, Fields[0]);
    if gender.Failure? then assert FieldFails(form, parse, 0); Failure(gender.error) else
    var region := Text(form, Fields[1]);
    if region.Failure? then assert FieldFails(form, parse, 1); Failure(region.error) else
    var education := Text(form, Fields[2]);
    if education.Failure? then assert FieldFails(form, parse, 2); Failure(education.error) else
    var age := Text(form, Fields[3]);
    if age.Failure? then assert FieldFails(form, parse, 3); Failure(age.error) else
    var attempts := Number(form, Fields[4], parse);
    if attempts.Failure? then assert FieldFails(form, parse, 4); Failure(attempts.error) else
    var credits := Number(form, Fields[5], parse);
    if credits.Failure? then assert FieldFails(form, parse, 5); Failure(credits.error) else
    var clicks := Number(form, Fields[6], parse);
    if clicks.Failure? then assert FieldFails(form, parse, 6); Failure(clicks.error) else
    var score := Number(form, Fields[7], parse);
    if score.Failure? then assert FieldFails(form, parse, 7); Failure(score.error) else
    assert forall j :: 0 <= j < |Fields| ==> !FieldFails(form, parse, j) by {
      forall j | 0 <= j < |Fields| ensures !FieldFails(form, parse, j) {
        assert j == 0 || j == 1 || j == 2 || j == 3 || j == 4 || j == 5 || j == 6 || j == 7;
      }
    }
    Success(FormInput(gender.value, region.value, education.value, age.value,
                      attempts.value, credits.value, clicks.value, score.value))
  }

  /** A rejected form reports the first field, in reading order, that
      cannot be read. */
  lemma ReadFormFirstError(form: map<string, string>, parse: string -> Option<real>)
    ensures ReadForm(form, parse).Failure? ==>
      exists j :: 0 <= j < |Fields| && FieldFails(form, parse, j)
        && (forall k :: 0 <= k < j ==> !FieldFails(form, parse, k))
        && ReadForm(form, parse).error == FieldError(form, j)
  {
    var r := ReadForm(form, parse);
    if r.Failure? {
      var j := FirstFailure(form, parse, 0);
      if j == 0 {
      } else if j == 1 {
      } else if j == 2 {
      } else if j == 3 {
      } else if j == 4 {
      } else if j == 5 {
      } else if j == 6 {
      } else {
      }
    }
  }

  /** The first failing field at or after `from`. */
  function FirstFailure(form: map<string, string>, parse: string -> Option<real>, from: nat): (j: nat)
    requires from <= |Fields|
    requires exists k :: from <= k < |Fields| && FieldFails(form, parse, k)
    ensures from <= j < |Fields| && FieldFails(form, parse, j)
    ensures forall k :: from <= k < j ==> !FieldFails(form, parse, k)
    decreases |Fields| - from
  {
    if FieldFails(form, parse, from) then from else FirstFailure(form, parse, from + 1)
  }

  // ---------------------------------------------------------------------
  // Encoding as written

  /** The model's input features in column order: four categorical cells of
      type `C` and four numeric cells. */
  datatype Features<C> = Features(
    gender: C,
    region: C,
    highestEducation: C,
    ageBand: C,
    numOfPrevAttempts: Option<real>,
    studiedCredits: Option<real>,
    totalClicks: Option<real>,
    avgAssessmentScore: Option<real>)

  /** The feature columns of a table row: the row without its student id
      and outcome. */
  function FeaturesOf<C, L>(r: Row<C, L>): Features<C> {
    Features(r.gender, r.region, r.highestEducation, r.ageBand,
             r.numOfPrevAttempts, r.studiedCredits, r.totalClicks, r.avgAssessmentScore)
  }

  function Code<C>(f: Features<C>, c: Categorical): C {
    match c
    case Gender => f.gender
    case Region => f.region
    case HighestEducation => f.highestEducation
    case AgeBand => f.ageBand
  }

  function Value<C>(f: Features<C>, n: Numeric): Option<real> {
    match n
    case TotalClicks => f.totalClicks
    case AvgAssessmentScore => f.avgAssessmentScore
    case StudiedCredits => f.studiedCredits
    case NumOfPrevAttempts => f.numOfPrevAttempts
  }

  function FormCat(input: FormInput, c: Categorical): string {
    match c
    case Gender => input.gender
    case Region => input.region
    case HighestEducation => input.highestEducation
    case AgeBand => input.ageBand
  }

  function FormNum(input: FormInput, n: Numeric): real {
    match n
    case TotalClicks => input.totalClicks
    case AvgAssessmentScore => input.avgAssessmentScore
    case StudiedCredits => input.studiedCredits
    case NumOfPrevAttempts => input.numOfPrevAttempts
  }

  const GenderCodes: map<string, nat> := map["M" := 0, "F" := 1]
  const RegionCodes: map<string, nat> := map["North" := 0, "South" := 1, "East" := 2, "West" := 3]
  const EducationCodes: map<string, nat> :=
    map["A Level" := 0, "HE Qualification" := 1, "Lower Than A Level" := 2]
  const AgeBandCodes: map<string, nat> := map["0-35" := 0, "35-55" := 1, "55+" := 2]

  /** The value lists the handler's maps number from 0, in the order the
      maps list them. */
  function InlineValues(c: Categorical): seq<string> {
    match c
    case Gender => ["M", "F"]
    case Region => ["North", "South", "East", "West"]
    case HighestEducation => ["A Level", "HE Qualification", "Lower Than A Level"]
    case AgeBand => ["0-35", "35-55", "55+"]
  }

  function InlineCodes(c: Categorical): map<string, nat> {
    match c
    case Gender => GenderCodes
    case Region => RegionCodes
    case HighestEducation => EducationCodes
    case AgeBand => AgeBandCodes
  }

  /** pandas `Series.map` with a dict: the code of a listed value, and a
      missing cell for any other. */
  function MapCode(codes: map<string, nat>, v: string): Option<nat> {
    if v in codes then Some(codes[v]) else None
  }

  /** Each inline map numbers its value list from 0: a value has a code
      exactly when it is listed, and the code is its position there, so the
      codes lie below the number of values and no two values share one. */
  lemma InlineCodesArePositions(c: Categorical, v: string)
    ensures v in InlineCodes(c) <==> v in InlineValues(c)
    ensures v in InlineCodes(c) ==>
      InlineCodes(c)[v] < |InlineValues(c)| && InlineValues(c)[InlineCodes(c)[v]] == v
  {
  }

  /** No two values of an inline map share a code, and the codes lie below
      the size of the map. */
  lemma InlineCodesInjective(c: Categorical, u: string, v: string)
    requires u in InlineCodes(c) && v in InlineCodes(c)
    ensures InlineCodes(c)[u] == InlineCodes(c)[v] <==> u == v
    ensures InlineCodes(c)[u] < |InlineCodes(c)|
  {
    InlineCodesArePositions(c, u);
    InlineCodesArePositions(c, v);
    InlineMapSize(c);
  }

  lemma InlineMapSize(c: Categorical)
    ensures |InlineCodes(c)| == |InlineValues(c)|
  {
    match c
    case Gender => GenderMapSize();
    case Region => RegionMapSize();
    case HighestEducation => EducationMapSize();
    case AgeBand => AgeBandMapSize();
  }

  lemma GenderMapSize()
    ensures |GenderCodes| == 2
  {
    assert GenderCodes == map[] ["M" := 0] ["F" := 1];
  }

  lemma RegionMapSize()
    ensures |RegionCodes| == 4
  {
    assert RegionCodes == map[] ["North" := 0] ["South" := 1] ["East" := 2] ["West" := 3];
  }

  lemma EducationMapSize()
    ensures |EducationCodes| == 3
  {
    assert EducationCodes == map[] ["A Level" := 0] ["HE Qualification" := 1] ["Lower Than A Level" := 2];
  }

  lemma AgeBandMapSize()
    ensures |AgeBandCodes| == 3
  {
    assert AgeBandCodes == map[] ["0-35" := 0] ["35-55" := 1] ["55+" := 2];
  }

  /** The handler's encoding: each categorical field through its fixed map,
      a missing cell for a value the map does not list, and the numeric
      fields unchanged. */
  function InlineEncode(input: FormInput): (f: Features<Option<nat>>)
    ensures forall c :: Code(f, c).Some? <==> FormCat(input, c) in InlineValues(c)
    ensures forall c :: Code(f, c).Some? ==>
      Code(f, c).value < |InlineValues(c)| && InlineValues(c)[Code(f, c).value] == FormCat(input, c)
    ensures forall n :: Value(f, n) == Some(FormNum(input, n))
  {
    var f := Features(
      MapCode(GenderCodes, input.gender), MapCode(RegionCodes, input.region),
      MapCode(EducationCodes, input.highestEducation), MapCode(AgeBandCodes, input.ageBand),
      Some(input.numOfPrevAttempts), Some(input.studiedCredits),
      Some(input.totalClicks), Some(input.avgAssessmentScore));
    forall c ensures Code(f, c) == MapCode(InlineCodes(c), FormCat(input, c)) {
    }
    forall c ensures Code(f, c).Some? <==> FormCat(input, c) in InlineValues(c)
      ensures Code(f, c).Some? ==>
        Code(f, c).value < |InlineValues(c)| && InlineValues(c)[Code(f, c).value] == FormCat(input, c)
    {
      InlineCodesArePositions(c, FormCat(input, c));
    }
    f
  }

  // ---------------------------------------------------------------------
  // Agreement with the training codes

  /** The classes a label encoder fits on a column holding exactly
      `values`, when `sorted` lists them in order. */
  lemma FittedClassesOf(col: seq<string>, sorted: seq<string>)
    requires StrictlySorted(sorted) && Elements(col) == Elements(sorted)
    ensures Classes(col) == sorted
  {
    SortedUnique(Classes(col), sorted);
  }

  /** As written, the gender map disagrees with training: on a gender
      column holding "M" and "F", the label encoder sorts the classes as
      ["F", "M"] and gives "M" the code 1, where the form gives 0. */
  lemma InlineGenderDisagrees(col: seq<string>, input: FormInput)
    requires Elements(col) == {"M", "F"} && input.gender == "M"
    ensures "M" in Classes(col)
    ensures InlineEncode(input).gender == Some(0) && CodeOf(Classes(col), "M") == 1
  {
    assert Elements(["F", "M"]) == {"M", "F"} by {
      assert "F" == ["F", "M"][0] && "M" == ["F", "M"][1];
    }
    FittedClassesOf(col, ["F", "M"]);
    assert InlineEncode(input).gender == MapCode(GenderCodes, "M");
  }

  /** As written, the region map disagrees with training: on a region
      column holding the four listed regions, the classes are ["East",
      "North", "South", "West"] and "North" gets the code 1, where the form
      gives 0. */
  lemma InlineRegionDisagrees(col: seq<string>, input: FormInput)
    requires Elements(col) == {"North", "South", "East", "West"} && input.region == "North"
    ensures "North" in Classes(col)
    ensures InlineEncode(input).region == Some(0) && CodeOf(Classes(col), "North") == 1
  {
    var sorted := ["East", "North", "South", "West"];
    assert Elements(sorted) == {"North", "South", "East", "West"} by {
      assert sorted[0] == "East" && sorted[1] == "North" && sorted[2] == "South" && sorted[3] == "West";
    }
    FittedClassesOf(col, sorted);
    assert InlineEncode(input).region == MapCode(RegionCodes, "North");
  }

  /** The education and age-band maps list their values in sorted order, so
      on a column holding exactly those values they agree with the label
      encoder. */
  lemma InlineOrderAgrees(c: Categorical, col: seq<string>, input: FormInput)
    requires c == HighestEducation || c == AgeBand
    requires Elements(col) == Elements(InlineValues(c)) && FormCat(input, c) in col
    ensures FormCat(input, c) in Classes(col)
    ensures Code(InlineEncode(input), c) == Some(CodeOf(Classes(col), FormCat(input, c)))
  {
    var values := InlineValues(c);
    assert StrictlySorted(values) by {
      assert Less(values[0], values[1]) && Less(values[0], values[2]) && Less(values[1], values[2]);
    }
    FittedClassesOf(col, values);
    assert FormCat(input, c) in Elements(col);
    SortedIsDistinct(values);
    var k := Code(InlineEncode(input), c).value;
    CodeOfDecoded(values, k);
  }

  // ---------------------------------------------------------------------
  // Encoding through the fitted classes

  /** The form field that holds categorical column `c`. */
  function FieldOf(c: Categorical): string {
    match c
    case Gender => Fields[0]
    case Region => Fields[1]
    case HighestEducation => Fields[2]
    case AgeBand => Fields[3]
  }

  /** The request encoded the way the training table was: each categorical
      value by its code in the fitted classes `t`, and each numeric value
      scaled by `s`. A value never seen in training is reported, first in
      column order, instead of being guessed. */
  function EncodeFormWith(t: EncodingTable, s: Scaler, input: FormInput): (r: Result<Features<nat>, FormError>)
    requires s.Valid()
    ensures r.Success? <==> forall c :: FormCat(input, c) in t.ClassesOf(c)
    ensures r.Success? ==> forall c ::
      Code(r.value, c) < |t.ClassesOf(c)| && t.ClassesOf(c)[Code(r.value, c)] == FormCat(input, c)
    ensures r.Success? ==> forall n ::
      Destandardize(Value(r.value, n), s.For(n).mean, s.For(n).scale) == Some(FormNum(input, n))
    ensures r.Failure? ==> exists c :: FormCat(input, c) !in t.ClassesOf(c) && r.error == UnknownCategory(FieldOf(c))
  {
    if input.gender !in t.gender then
      assert FormCat(input, Gender) !in t.ClassesOf(Gender);
      Failure(UnknownCategory(FieldOf(Gender)))
    else if input.region !in t.region then
      assert FormCat(input, Region) !in t.ClassesOf(Region);
      Failure(UnknownCategory(FieldOf(Region)))
    else if input.highestEducation !in t.highestEducation then
      assert FormCat(input, HighestEducation) !in t.ClassesOf(HighestEducation);
      Failure(UnknownCategory(FieldOf(HighestEducation)))
    else if input.ageBand !in t.ageBand then
      assert FormCat(input, AgeBand) !in t.ClassesOf(AgeBand);
      Failure(UnknownCategory(FieldOf(AgeBand)))
    else
      var f := Features(
        CodeOf(t.gender, input.gender), CodeOf(t.region, input.region),
        CodeOf(t.highestEducation, input.highestEducation), CodeOf(t.ageBand, input.ageBand),
        ScaleCell(s.numOfPrevAttempts, Some(input.numOfPrevAttempts)),
        ScaleCell(s.studiedCredits, Some(input.studiedCredits)),
        ScaleCell(s.totalClicks, Some(input.totalClicks)),
        ScaleCell(s.avgAssessmentScore, Some(input.avgAssessmentScore)));
      forall n ensures Destandardize(Value(f, n), s.For(n).mean, s.For(n).scale) == Some(FormNum(input, n)) {
        assert Value(f, n) == ScaleCell(s.For(n), Some(FormNum(input, n)));
        StandardizeRoundTrip(Some(FormNum(input, n)), s.For(n).mean, s.For(n).scale);
      }
      Success(f)
  }

  /** A request that repeats a training row with all four numbers present is
      encoded exactly as `preprocess_data` encodes that row. */
  lemma FormMatchesTraining(rows: seq<RawRow>, s: Scaler, i: nat, input: FormInput)
    requires s.Valid() && i < |rows|
    requires forall c :: FormCat(input, c) == Cat(rows[i], c)
    requires forall n :: Num(rows[i], n) == Some(FormNum(input, n))
    ensures EncodeFormWith(Fit(rows), s, input) == Success(FeaturesOf(PreprocessData(rows, s)[i]))
  {
    PreprocessedIs(rows, s, i);
    PreparedIsRow(rows, i, input);
    FormMatchesRow(Fit(rows), s, Prepared(rows, rows[i]), input);
  }

  /** A request with the values of a row whose categories are all known is
      encoded as that row is encoded and scaled. */
  lemma FormMatchesRow<L>(t: EncodingTable, s: Scaler, r: Row<string, L>, input: FormInput)
    requires s.Valid() && Known(t, r) && forall c :: StrictlySorted(t.ClassesOf(c))
    requires forall c :: Cat(r, c) == FormCat(input, c)
    requires forall n :: Num(r, n) == Some(FormNum(input, n))
    ensures EncodeFormWith(t, s, input) == Success(FeaturesOf(ScaleRow(s, EncodeRow(t, r))))
  {
    var p := ScaleRow(s, EncodeRow(t, r));
    var expected := FeaturesOf(p);
    TrainingRowKnown(t, s, r, input);
    var f := EncodeFormWith(t, s, input).value;
    forall c ensures Code(f, c) == Code(expected, c) {
      ScaledCode(t, s, r, c);
      assert Code(expected, c) == Cat(p, c);
      SortedIsDistinct(t.ClassesOf(c));
      DistinctCodes(t.ClassesOf(c), Code(f, c), Code(expected, c));
    }
    forall n ensures Value(f, n) == Value(expected, n) {
      assert Value(expected, n) == Num(p, n);
      DestandardizeInjective(Value(f, n), Value(expected, n), s.For(n).mean, s.For(n).scale);
    }
    FeaturesEqual(f, expected);
  }

  /** With all four numbers present, filling changes nothing but the
      outcome, so the prepared row carries the request's values. */
  lemma PreparedIsRow(rows: seq<RawRow>, i: nat, input: FormInput)
    requires i < |rows|
    requires forall c :: FormCat(input, c) == Cat(rows[i], c)
    requires forall n :: Num(rows[i], n) == Some(FormNum(input, n))
    ensures forall c :: Cat(Prepared(rows, rows[i]), c) == FormCat(input, c)
    ensures forall n :: Num(Prepared(rows, rows[i]), n) == Some(FormNum(input, n))
  {
    assert rows[i].totalClicks == Num(rows[i], TotalClicks);
    assert rows[i].avgAssessmentScore == Num(rows[i], AvgAssessmentScore);
  }

  lemma TrainingRowKnown<L>(t: EncodingTable, s: Scaler, r: Row<string, L>, input: FormInput)
    requires s.Valid() && Known(t, r)
    requires forall c :: Cat(r, c) == FormCat(input, c)
    ensures EncodeFormWith(t, s, input).Success?
  {
    assert forall c :: FormCat(input, c) in t.ClassesOf(c);
  }

  lemma DistinctCodes(classes: seq<string>, a: nat, b: nat)
    requires Distinct(classes) && a < |classes| && b < |classes| && classes[a] == classes[b]
    ensures a == b
  {
  }

  lemma DestandardizeInjective(x: Option<real>, y: Option<real>, mean: real, scale: real)
    requires scale != 0.0 && Destandardize(x, mean, scale) == Destandardize(y, mean, scale)
    ensures x == y
  {
    if x.Some? && y.Some? {
      assert x.value * scale == y.value * scale;
    }
  }

  lemma FeaturesEqual<C>(f: Features<C>, g: Features<C>)
    requires forall c :: Code(f, c) == Code(g, c)
    requires forall n :: Value(f, n) == Value(g, n)
    ensures f == g
  {
    assert Code(f, Gender) == Code(g, Gender) && Code(f, Region) == Code(g, Region);
    assert Code(f, HighestEducation) == Code(g, HighestEducation) && Code(f, AgeBand) == Code(g, AgeBand);
    assert Value(f, TotalClicks) == Value(g, TotalClicks) && Value(f, AvgAssessmentScore) == Value(g, AvgAssessmentScore);
    assert Value(f, StudiedCredits) == Value(g, StudiedCredits) && Value(f, NumOfPrevAttempts) == Value(g, NumOfPrevAttempts);
  }

  /** As written, the numeric fields reach the model unscaled. A training
      table whose one row has 100 clicks is scaled with the click mean fitted
      on it, 100, so that row reaches the model as 0 whatever the fitted
      scale; a request with the same 100 clicks reaches it as 100. */
  lemma InlineNumbersUnscaled(r: RawRow, s: Scaler, input: FormInput)
    requires s.Valid() && s.CentredOn([r])
    requires r.totalClicks == Some(100.0) && input.totalClicks == 100.0
    ensures PreprocessData([r], s)[0].totalClicks == Some(0.0)
    ensures InlineEncode(input).totalClicks == Some(100.0)
  {
    var sc := s.totalClicks.scale;
    SingleObservedMean(100.0);
    assert NumColumn([r], TotalClicks) == [Some(100.0)];
    assert s.totalClicks.mean == 100.0 by {
      assert ObservedMean(NumColumn([r], TotalClicks)) == Some(s.For(TotalClicks).mean);
    }
    PreprocessDataNumeric([r], s, 0);
    var p := PreprocessData([r], s)[0];
    assert Destandardize(Some(0.0), 100.0, sc) == Some(100.0) by {
      assert FromStandard(0.0, 100.0, sc) == 100.0;
    }
    DestandardizeInjective(p.totalClicks, Some(0.0), 100.0, sc);
    assert InlineEncode(input).totalClicks == Value(InlineEncode(input), TotalClicks);
  }

  /** The observed mean of a one-cell column is that cell. */
  lemma SingleObservedMean(v: real)
    ensures ObservedMean([Some(v)]) == Some(v)
  {
    assert [Some(v)][..0] == [];
    assert Present([Some(v)]) == [v];
    assert [v][..0] == [];
    assert Sum([v]) == v;
  }

  // ---------------------------------------------------------------------
  // The label shown

  /** The label shown for a predicted class, on both the form and the JSON
      route. */
  function PredictionLabel(prediction: int): (shown: string)
    ensures shown == "Pass" <==> prediction == 1
    ensures shown == "Pass" || shown == "Fail"
  {
    if prediction == 1 then "Pass" else "Fail"
  }

  /** The label shown for a training target reads "Pass" exactly when the
      raw outcome was a pass or a distinction. */
  lemma PredictionLabelOfTarget(outcome: string)
    ensures PredictionLabel(Binarize(outcome)) == "Pass" <==> outcome == "Pass" || outcome == "Distinction"
  {
  }
}
