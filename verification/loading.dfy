/** Aggregation and merge of the raw sources into the student table
    (`load_and_merge_data`). Reading the four CSV files is left out: their
    rows arrive as sequences.
 */
module Loading {
  import opened Options
  import opened Numbers
  import opened Table

  /** A row of the student information source. */
  datatype StudentInfo = StudentInfo(
    idStudent: int,
    gender: string,
    region: string,
    highestEducation: string,
    ageBand: string,
    numOfPrevAttempts: Option<real>,
    studiedCredits: Option<real>,
    finalResult: string)

  /** A row of the clickstream source: some clicks by one student. */
  datatype VleRecord = VleRecord(idStudent: int, sumClick: real)

  /** A row of the assessment definitions: the weight is a percentage. */
  datatype Assessment = Assessment(idAssessment: int, weight: real)

  /** A row of the student assessment source; the score may be missing. */
  datatype StudentAssessment = StudentAssessment(idAssessment: int, idStudent: int, score: Option<real>)

  /** A row of the joined assessment table with its weighted score. */
  datatype Scored = Scored(idStudent: int, weightedScore: Option<real>)

  // ---------------------------------------------------------------------
  // Reference definitions, one student at a time

  /** The students that appear in the clickstream. */
  function VleStudents(vle: seq<VleRecord>): set<int> {
    set r | r in vle :: r.idStudent
  }

  /** The clicks of one student, summed over exactly that student's rows. */
  function ClicksOf(vle: seq<VleRecord>, id: int): real {
    if |vle| == 0 then 0.0
    else ClicksOf(vle[..|vle| - 1], id) + (if vle[|vle| - 1].idStudent == id then vle[|vle| - 1].sumClick else 0.0)
  }

  /** The students that appear in the joined assessment table. */
  function ScoredStudents(scored: seq<Scored>): set<int> {
    set r | r in scored :: r.idStudent
  }

  /** The weighted scores of one student, in table order. */
  function ScoresOf(scored: seq<Scored>, id: int): (col: seq<Option<real>>)
    ensures |col| <= |scored|
  {
    if |scored| == 0 then []
    else
      var last := scored[|scored| - 1];
      ScoresOf(scored[..|scored| - 1], id) + (if last.idStudent == id then [last.weightedScore] else [])
  }

  /** A score times its percentage weight; a missing score stays missing. */
  function Weighted(score: Option<real>, weight: real): Option<real> {
    match score
    case Some(s) => Some(s * weight / 100.0)
    case None => None
  }

  // ---------------------------------------------------------------------
  // Aggregation

  /** The clickstream grouped by student, each group summed. */
  method GroupClicks(vle: seq<VleRecord>) returns (totals: map<int, real>)
    ensures totals.Keys == VleStudents(vle)
    ensures forall id :: id in totals ==> totals[id] == ClicksOf(vle, id)
  {
    totals := map[];
    var i := 0;
    while i < |vle|
      invariant 0 <= i <= |vle|
      invariant totals.Keys == VleStudents(vle[..i])
      invariant forall id :: id in totals ==> totals[id] == ClicksOf(vle[..i], id)
    {
      var r := vle[i];
      PrefixSnoc(vle, i);
      assert VleStudents(vle[..i + 1]) == VleStudents(vle[..i]) + {r.idStudent};
      if r.idStudent !in totals {
        ClicksAbsent(vle[..i], r.idStudent);
      }
      var before := if r.idStudent in totals then totals[r.idStudent] else 0.0;
      totals := totals[r.idStudent := before + r.sumClick];
      i := i + 1;
    }
    assert vle[..i] == vle;
  }

  lemma {:induction false} ClicksAbsent(vle: seq<VleRecord>, id: int)
    requires id !in VleStudents(vle)
    ensures ClicksOf(vle, id) == 0.0
  {
    if |vle| > 0 {
      var init := vle[..|vle| - 1];
      assert VleStudents(init) <= VleStudents(vle) by {
        forall x | x in VleStudents(init) ensures x in VleStudents(vle) {
          var r :| r in init && r.idStudent == x;
          assert r in vle;
        }
      }
      assert vle[|vle| - 1] in vle;
      ClicksAbsent(init, id);
    }
  }

  /** `x` is a joined row: some student assessment and some definition with
      the same assessment identifier, carrying the weighted score. */
  predicate JoinedRow(results: seq<StudentAssessment>, assessments: seq<Assessment>, x: Scored) {
    exists i, j :: 0 <= i < |results| && 0 <= j < |assessments|
      && results[i].idAssessment == assessments[j].idAssessment
      && x == Scored(results[i].idStudent, Weighted(results[i].score, assessments[j].weight))
  }

  /** The student assessments inner-joined with the assessment definitions on
      the assessment identifier, each joined row carrying its weighted score. */
  function Join(results: seq<StudentAssessment>, assessments: seq<Assessment>): (scored: seq<Scored>)
    ensures forall k :: 0 <= k < |scored| ==> JoinedRow(results, assessments, scored[k])
  {
    if |results| == 0 then []
    else
      var front := Join(results[..|results| - 1], assessments);
      var back := Matches(results[|results| - 1], assessments);
      JoinStep(results, assessments, front, back);
      front + back
  }

  /** Extending the joined rows of all but the last student assessment with
      the matches of the last keeps every row joined. */
  lemma JoinStep(results: seq<StudentAssessment>, assessments: seq<Assessment>, front: seq<Scored>, back: seq<Scored>)
    requires |results| > 0
    requires forall k :: 0 <= k < |front| ==> JoinedRow(results[..|results| - 1], assessments, front[k])
    requires back == Matches(results[|results| - 1], assessments)
    ensures forall k :: 0 <= k < |front + back| ==> JoinedRow(results, assessments, (front + back)[k])
  {
    var n := |results| - 1;
    forall k | 0 <= k < |front + back| ensures JoinedRow(results, assessments, (front + back)[k]) {
      if k < |front| {
        assert JoinedRow(results[..n], assessments, front[k]);
        var i, j :| 0 <= i < n && 0 <= j < |assessments|
          && results[..n][i].idAssessment == assessments[j].idAssessment
          && front[k] == Scored(results[..n][i].idStudent, Weighted(results[..n][i].score, assessments[j].weight));
        assert results[..n][i] == results[i];
      } else {
        var j :| 0 <= j < |assessments| && assessments[j].idAssessment == results[n].idAssessment
          && back[k - |front|] == Scored(results[n].idStudent, Weighted(results[n].score, assessments[j].weight));
        assert (front + back)[k] == back[k - |front|];
      }
    }
  }

  /** The joined rows of one student assessment: one per assessment
      definition with the same identifier, none when there is no such
      definition. */
  function Matches(a: StudentAssessment, assessments: seq<Assessment>): (scored: seq<Scored>)
    ensures |scored| > 0 <==> exists j :: 0 <= j < |assessments| && assessments[j].idAssessment == a.idAssessment
    ensures forall k :: 0 <= k < |scored| ==>
      exists j :: 0 <= j < |assessments| && assessments[j].idAssessment == a.idAssessment
        && scored[k] == Scored(a.idStudent, Weighted(a.score, assessments[j].weight))
  {
    if |assessments| == 0 then []
    else
      var n := |assessments| - 1;
      var front := Matches(a, assessments[..n]);
      var last := assessments[n];
      assert forall j :: 0 <= j < n ==> assessments[..n][j] == assessments[j];
      front + (if last.idAssessment == a.idAssessment then [Scored(a.idStudent, Weighted(a.score, last.weight))] else [])
  }

  /** Every matching definition yields a joined row: the join drops no
      pair with equal assessment identifiers. */
  lemma {:induction false} JoinComplete(results: seq<StudentAssessment>, assessments: seq<Assessment>, i: nat, j: nat)
    requires i < |results| && j < |assessments|
    requires results[i].idAssessment == assessments[j].idAssessment
    ensures Scored(results[i].idStudent, Weighted(results[i].score, assessments[j].weight)) in Join(results, assessments)
    decreases |results|
  {
    var n := |results| - 1;
    if i < n {
      JoinComplete(results[..n], assessments, i, j);
      assert results[..n][i] == results[i];
    } else {
      MatchesComplete(results[n], assessments, j);
    }
  }

  lemma {:induction false} MatchesComplete(a: StudentAssessment, assessments: seq<Assessment>, j: nat)
    requires j < |assessments| && assessments[j].idAssessment == a.idAssessment
    ensures Scored(a.idStudent, Weighted(a.score, assessments[j].weight)) in Matches(a, assessments)
    decreases |assessments|
  {
    var n := |assessments| - 1;
    if j < n {
      MatchesComplete(a, assessments[..n], j);
      assert assessments[..n][j] == assessments[j];
    }
  }

  /** `sums` and `counts` hold, for every student of `prefix`, the sum and
      the number of that student's present weighted scores. */
  predicate Tallied(prefix: seq<Scored>, sums: map<int, real>, counts: map<int, nat>) {
    && sums.Keys == ScoredStudents(prefix)
    && counts.Keys == ScoredStudents(prefix)
    && (forall id :: id in counts ==> counts[id] == |Present(ScoresOf(prefix, id))|)
    && (forall id :: id in sums ==> sums[id] == Sum(Present(ScoresOf(prefix, id))))
  }

  function AddToSum(sums: map<int, real>, r: Scored): map<int, real> {
    var before := if r.idStudent in sums then sums[r.idStudent] else 0.0;
    sums[r.idStudent := if r.weightedScore.Some? then before + r.weightedScore.value else before]
  }

  function AddToCount(counts: map<int, nat>, r: Scored): map<int, nat> {
    var before := if r.idStudent in counts then counts[r.idStudent] else 0;
    counts[r.idStudent := if r.weightedScore.Some? then before + 1 else before]
  }

  lemma TallyStep(prefix: seq<Scored>, r: Scored, sums: map<int, real>, counts: map<int, nat>)
    requires Tallied(prefix, sums, counts)
    ensures Tallied(prefix + [r], AddToSum(sums, r), AddToCount(counts, r))
  {
    StudentsSnoc(prefix, r);
    TallyValues(prefix, r, sums, counts);
  }

  lemma StudentsSnoc(prefix: seq<Scored>, r: Scored)
    ensures ScoredStudents(prefix + [r]) == ScoredStudents(prefix) + {r.idStudent}
  {
    var next := prefix + [r];
    forall x | x in ScoredStudents(next) ensures x in ScoredStudents(prefix) + {r.idStudent} {
      var y :| y in next && y.idStudent == x;
      if y != r { assert y in prefix; }
    }
    forall x | x in ScoredStudents(prefix) ensures x in ScoredStudents(next) {
      var y :| y in prefix && y.idStudent == x;
      assert y in next;
    }
    assert r in next;
  }

  lemma TallyValues(prefix: seq<Scored>, r: Scored, sums: map<int, real>, counts: map<int, nat>)
    requires Tallied(prefix, sums, counts)
    ensures forall x :: x in AddToCount(counts, r) ==> AddToCount(counts, r)[x] == |Present(ScoresOf(prefix + [r], x))|
    ensures forall x :: x in AddToSum(sums, r) ==> AddToSum(sums, r)[x] == Sum(Present(ScoresOf(prefix + [r], x)))
  {
    var id, next := r.idStudent, prefix + [r];
    if id !in counts {
      ScoresAbsent(prefix, id);
      assert Present(ScoresOf(prefix, id)) == [];
    }
    AccumulateScore(prefix, r);
    ScoresOfSnoc(prefix, r);
    TallyCounts(prefix, r, counts);
    TallySums(prefix, r, sums);
  }

  lemma TallyCounts(prefix: seq<Scored>, r: Scored, counts: map<int, nat>)
    requires forall x :: x in counts ==> counts[x] == |Present(ScoresOf(prefix, x))|
    requires r.idStudent !in counts ==> Present(ScoresOf(prefix, r.idStudent)) == []
    requires |Present(ScoresOf(prefix + [r], r.idStudent))|
          == |Present(ScoresOf(prefix, r.idStudent))| + (if r.weightedScore.Some? then 1 else 0)
    requires forall x :: x != r.idStudent ==> ScoresOf(prefix + [r], x) == ScoresOf(prefix, x)
    ensures forall x :: x in AddToCount(counts, r) ==> AddToCount(counts, r)[x] == |Present(ScoresOf(prefix + [r], x))|
  {
  }

  lemma TallySums(prefix: seq<Scored>, r: Scored, sums: map<int, real>)
    requires forall x :: x in sums ==> sums[x] == Sum(Present(ScoresOf(prefix, x)))
    requires r.idStudent !in sums ==> Present(ScoresOf(prefix, r.idStudent)) == []
    requires Sum(Present(ScoresOf(prefix + [r], r.idStudent)))
          == Sum(Present(ScoresOf(prefix, r.idStudent))) + (if r.weightedScore.Some? then r.weightedScore.value else 0.0)
    requires forall x :: x != r.idStudent ==> ScoresOf(prefix + [r], x) == ScoresOf(prefix, x)
    ensures forall x :: x in AddToSum(sums, r) ==> AddToSum(sums, r)[x] == Sum(Present(ScoresOf(prefix + [r], x)))
  {
  }

  /** The joined table grouped by student, each group averaged over its
      present weighted scores (missing when it has none). */
  method GroupMeanScores(scored: seq<Scored>) returns (avg: map<int, Option<real>>)
    ensures avg.Keys == ScoredStudents(scored)
    ensures forall id :: id in avg ==> avg[id] == ObservedMean(ScoresOf(scored, id))
  {
    var sums: map<int, real> := map[];
    var counts: map<int, nat> := map[];
    var i := 0;
    while i < |scored|
      invariant 0 <= i <= |scored|
      invariant Tallied(scored[..i], sums, counts)
    {
      TallyStep(scored[..i], scored[i], sums, counts);
      PrefixSnoc(scored, i);
      sums, counts := AddToSum(sums, scored[i]), AddToCount(counts, scored[i]);
      i := i + 1;
    }
    assert scored[..i] == scored;
    avg := Averages(sums, counts);
    TalliedAverages(scored, sums, counts);
  }

  /** The average of `count` values summing to `sum`; missing when there is
      no value. */
  function Average(sum: real, count: nat): Option<real> {
    if count == 0 then None else Some(sum / (count as real))
  }

  /** Each student's average from the running sums and counts. */
  function Averages(sums: map<int, real>, counts: map<int, nat>): map<int, Option<real>>
    requires counts.Keys <= sums.Keys
  {
    map id | id in counts :: Average(sums[id], counts[id])
  }

  lemma TalliedAverages(scored: seq<Scored>, sums: map<int, real>, counts: map<int, nat>)
    requires Tallied(scored, sums, counts)
    ensures Averages(sums, counts).Keys == ScoredStudents(scored)
    ensures forall id :: id in Averages(sums, counts) ==> Averages(sums, counts)[id] == ObservedMean(ScoresOf(scored, id))
  {
    forall id | id in Averages(sums, counts)
      ensures Averages(sums, counts)[id] == ObservedMean(ScoresOf(scored, id))
    {
      var present := Present(ScoresOf(scored, id));
      assert Averages(sums, counts)[id] == Average(sums[id], counts[id]);
      assert Average(sums[id], counts[id]) == Average(Sum(present), |present|);
    }
  }

  lemma PrefixSnoc<T>(s: seq<T>, i: nat)
    requires i < |s|
    ensures s[..i + 1] == s[..i] + [s[i]]
  {
  }

  lemma {:induction false} ScoresAbsent(scored: seq<Scored>, id: int)
    requires id !in ScoredStudents(scored)
    ensures ScoresOf(scored, id) == []
  {
    if |scored| > 0 {
      var init := scored[..|scored| - 1];
      assert ScoredStudents(init) <= ScoredStudents(scored) by {
        forall x | x in ScoredStudents(init) ensures x in ScoredStudents(scored) {
          var r :| r in init && r.idStudent == x;
          assert r in scored;
        }
      }
      assert scored[|scored| - 1] in scored;
      ScoresAbsent(init, id);
    }
  }

  /** Appending a joined row with a present score adds one to its
      student's count of scores and the score to their sum. */
  lemma AccumulateScore(prefix: seq<Scored>, r: Scored)
    ensures var before, after := Present(ScoresOf(prefix, r.idStudent)), Present(ScoresOf(prefix + [r], r.idStudent));
      && |after| == |before| + (if r.weightedScore.Some? then 1 else 0)
      && Sum(after) == Sum(before) + (if r.weightedScore.Some? then r.weightedScore.value else 0.0)
  {
    ScoresOfSnoc(prefix, r);
    var before, after := Present(ScoresOf(prefix, r.idStudent)), Present(ScoresOf(prefix + [r], r.idStudent));
    if r.weightedScore.Some? {
      var v := r.weightedScore.value;
      assert after == before + [v];
      SumAppend(before, [v]);
      assert [v][..0] == [];
      assert Sum([v]) == v;
    } else {
      assert after == before;
    }
  }

  /** Appending a joined row adds its score to its own student's scores and
      to no one else's. */
  lemma ScoresOfSnoc(scored: seq<Scored>, r: Scored)
    ensures forall id :: id != r.idStudent ==> ScoresOf(scored + [r], id) == ScoresOf(scored, id)
    ensures ScoresOf(scored + [r], r.idStudent) == ScoresOf(scored, r.idStudent) + [r.weightedScore]
    ensures Present(ScoresOf(scored + [r], r.idStudent))
         == Present(ScoresOf(scored, r.idStudent)) + (if r.weightedScore.Some? then [r.weightedScore.value] else [])
  {
    assert (scored + [r])[..|scored|] == scored;
    var col := ScoresOf(scored + [r], r.idStudent);
    assert col[..|col| - 1] == ScoresOf(scored, r.idStudent);
  }

  // ---------------------------------------------------------------------
  // Merge

  /** The student information left-joined with the click totals and the
      average scores: one row per information row, in the same order. */
  function MergeRows(info: seq<StudentInfo>, totals: map<int, real>, avg: map<int, Option<real>>): (data: seq<RawRow>)
    ensures |data| == |info|
  {
    seq(|info|, i requires 0 <= i < |info| =>
      var s := info[i];
      Row(s.idStudent, s.gender, s.region, s.highestEducation, s.ageBand,
          s.numOfPrevAttempts, s.studiedCredits,
          if s.idStudent in totals then Some(totals[s.idStudent]) else None,
          if s.idStudent in avg then avg[s.idStudent] else None,
          s.finalResult))
  }

  /** `load_and_merge_data` after reading: the merged student table. */
  method LoadAndMerge(info: seq<StudentInfo>, vle: seq<VleRecord>,
                      assessments: seq<Assessment>, results: seq<StudentAssessment>)
    returns (data: seq<RawRow>)
    ensures |data| == |info|
    ensures forall i :: 0 <= i < |info| ==>
      var s, d := info[i], data[i];
      && d.idStudent == s.idStudent
      && d.gender == s.gender && d.region == s.region
      && d.highestEducation == s.highestEducation && d.ageBand == s.ageBand
      && d.numOfPrevAttempts == s.numOfPrevAttempts && d.studiedCredits == s.studiedCredits
      && d.finalResult == s.finalResult
    ensures forall i :: 0 <= i < |info| ==>
      data[i].totalClicks == if info[i].idStudent in VleStudents(vle) then Some(ClicksOf(vle, info[i].idStudent)) else None
    ensures forall i :: 0 <= i < |info| ==>
      data[i].avgAssessmentScore == ObservedMean(ScoresOf(Join(results, assessments), info[i].idStudent))
  {
    var totals := GroupClicks(vle);
    var scored := Join(results, assessments);
    var avg := GroupMeanScores(scored);
    data := MergeRows(info, totals, avg);
    forall i | 0 <= i < |info|
      ensures data[i].avgAssessmentScore == ObservedMean(ScoresOf(scored, info[i].idStudent))
    {
      if info[i].idStudent !in avg {
        ScoresAbsent(scored, info[i].idStudent);
      }
    }
  }
}
