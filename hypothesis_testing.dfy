/** A/B hypothesis testing over the insurance table: row segmentation, the
    constant-metric guard, the choice between chi-squared, t- and z-tests, the
    p-value interpretation, and the battery of four scenarios. The test
    statistics themselves come from a statistics library and are parameters. */
module HypothesisTesting {
  import opened Wrappers
  import opened Tables
  import opened Collections

  /** A column the code indexes is not in the table (pandas raises KeyError). */
  datatype Error = KeyError(column: string)

  /** The statistics library: each test maps its samples to (statistic, p-value).
      chiSquared receives the (feature, metric) pairs a cross-tabulation counts;
      tTest and zTest receive the non-missing metric values of the two groups. */
  datatype Library = Library(
    chiSquared: seq<(Value, Value)> -> (real, real),
    tTest: (seq<Value>, seq<Value>) -> (real, real),
    zTest: (seq<Value>, seq<Value>) -> (real, real))

  const SKIPPED := "Test skipped due to identical values."
  const REJECT := "Reject the null hypothesis."
  const FAIL_TO_REJECT := "Fail to reject the null hypothesis."
  const NOT_ENOUGH_POSTAL_CODES := "Not enough unique postal codes for testing."
  const EMPTY_GENDER_GROUP := "One of the gender groups is empty. Test cannot be performed."
  const NOT_SPECIFIED := "Not Specified"
  const MALE := "Male"
  const FEMALE := "Female"
  const TOTAL_PREMIUM := "TotalPremium"
  /** Row-count threshold above which both groups are large enough for the z-test. */
  const LARGE_SAMPLE := 30

  const PROVINCES_KEY := "Risk Differences Across Provinces"
  const POSTAL_RISK_KEY := "Risk Differences Between Postal Codes"
  const POSTAL_MARGIN_KEY := "Margin Differences Between Postal Codes"
  const GENDER_KEY := "Risk Differences Between Women and Men"

  /** The outcome text of one scenario. Statistic and p-value are kept as
      numbers rather than formatted into the message. */
  datatype Report =
    | ChiSquaredReport(feature: string, chi2: real, chiPValue: real, interpretation: string)
    | TTestReport(tStat: Option<real>, tPValue: Option<real>, interpretation: string)
    | ZTestReport(zStat: real, zPValue: real, interpretation: string)
    | Notice(text: string)

  // ---------------------------------------------------------------------
  // Segmentation

  /** `_segment_data`: with `excludeValues`, drop the rows whose `feature` is
      one of them; then, with `value`, keep the rows whose `feature` equals it.
      `value` is a cell, so it may itself be a missing value. */
  function Segment(t: Table, feature: string, value: Option<Cell> := None, excludeValues: Option<set<Value>> := None): (r: Result<Table, Error>)
    ensures r.Failure? <==> (excludeValues.Some? || value.Some?) && feature !in t.columns
    ensures r.Failure? ==> r.error == KeyError(feature)
    ensures r.Success? ==> r.value.columns == t.columns && r.value.kinds == t.kinds
    ensures r.Success? ==> |r.value.rows| <= |t.rows|
    ensures r.Success? ==> forall row :: row in r.value.rows <==>
              && row in t.rows
              && (excludeValues.Some? ==> Passes(NotIn(feature, excludeValues.value), row))
              && (value.Some? ==> Passes(EqualTo(feature, value.value), row))
    ensures value.None? && excludeValues.None? ==> r == Success(t)
  {
    if (excludeValues.Some? || value.Some?) && feature !in t.columns then
      Failure(KeyError(feature))
    else
      var excluded := if excludeValues.Some? then Keep(t.rows, NotIn(feature, excludeValues.value)) else t.rows;
      var selected := if value.Some? then Keep(excluded, EqualTo(feature, value.value)) else excluded;
      Success(t.(rows := selected))
  }

  /** Segmenting keeps the surviving rows in their original order and
      multiplicity, whichever arguments are given: the segment of a
      concatenation is the concatenation of the segments. */
  lemma SegmentKeepsOrder(t: Table, u: Table, feature: string, value: Option<Cell>, excludeValues: Option<set<Value>>)
    requires feature in t.columns && u.columns == t.columns
    ensures Segment(t.(rows := t.rows + u.rows), feature, value, excludeValues).value.rows
         == Segment(t, feature, value, excludeValues).value.rows + Segment(u, feature, value, excludeValues).value.rows
  {
    var excluded := if excludeValues.Some? then Keep(t.rows + u.rows, NotIn(feature, excludeValues.value)) else t.rows + u.rows;
    var ex1 := if excludeValues.Some? then Keep(t.rows, NotIn(feature, excludeValues.value)) else t.rows;
    var ex2 := if excludeValues.Some? then Keep(u.rows, NotIn(feature, excludeValues.value)) else u.rows;
    if excludeValues.Some? {
      KeepAppend(t.rows, u.rows, NotIn(feature, excludeValues.value));
    }
    assert excluded == ex1 + ex2;
    if value.Some? {
      KeepAppend(ex1, ex2, EqualTo(feature, value.value));
    }
  }

  /** The rows of `t` whose `feature` equals `target`, as a table. */
  function Selected(t: Table, feature: string, target: Cell): (r: Table)
    ensures r.columns == t.columns && r.kinds == t.kinds
    ensures forall row :: row in r.rows <==> row in t.rows && Passes(EqualTo(feature, target), row)
    ensures r.rows == Keep(t.rows, EqualTo(feature, target))
  {
    t.(rows := Keep(t.rows, EqualTo(feature, target)))
  }

  // ---------------------------------------------------------------------
  // Constant-metric guard

  /** `_check_identical_values`: true iff the whole table's column `metric`
      has exactly one distinct non-missing value, so an all-missing column
      gives false. */
  function CheckIdenticalValues(t: Table, metric: string): (r: Result<bool, Error>)
    ensures r.Failure? <==> metric !in t.columns
    ensures r.Failure? ==> r.error == KeyError(metric)
    ensures r.Success? ==> (r.value <==> OneDistinctValue(t.rows, metric))
  {
    if metric !in t.columns then Failure(KeyError(metric))
    else
      var distinct := set v | v in PresentValues(t.rows, metric);
      DistinctCountIsOne(t.rows, metric);
      Success(|distinct| == 1)
  }

  /** Column `c` has a non-missing value, and every non-missing cell holds it. */
  ghost predicate OneDistinctValue(rows: seq<Row>, c: string) {
    exists v :: v in PresentValues(rows, c) && forall i :: 0 <= i < |rows| ==> CellOf(rows[i], c) in {None, Some(v)}
  }

  lemma DistinctCountIsOne(rows: seq<Row>, c: string)
    ensures |set v | v in PresentValues(rows, c)| == 1 <==> OneDistinctValue(rows, c)
  {
    if |set v | v in PresentValues(rows, c)| == 1 {
      OneValueShared(rows, c);
    }
    if OneDistinctValue(rows, c) {
      SharedValueIsOne(rows, c);
    }
  }

  lemma OneValueShared(rows: seq<Row>, c: string)
    requires |set v | v in PresentValues(rows, c)| == 1
    ensures OneDistinctValue(rows, c)
  {
    var present := PresentValues(rows, c);
    var distinct := set v | v in present;
    var v :| v in distinct;
    assert |distinct - {v}| == 0;
    forall i | 0 <= i < |rows| ensures CellOf(rows[i], c) in {None, Some(v)} {
      if CellOf(rows[i], c).Some? {
        assert CellOf(rows[i], c).value in present;
        assert CellOf(rows[i], c).value in distinct;
      }
    }
  }

  lemma SharedValueIsOne(rows: seq<Row>, c: string)
    requires OneDistinctValue(rows, c)
    ensures |set v | v in PresentValues(rows, c)| == 1
  {
    var present := PresentValues(rows, c);
    var distinct := set v | v in present;
    var v :| v in present && forall i :: 0 <= i < |rows| ==> CellOf(rows[i], c) in {None, Some(v)};
    forall w | w in distinct ensures w == v {
      var i :| 0 <= i < |rows| && CellOf(rows[i], c) == Some(w);
    }
    assert distinct == {v};
  }

  /** An all-missing metric column is not "identical", so the t-test is not skipped for it. */
  lemma AllMissingIsNotIdentical(t: Table, metric: string)
    requires metric in t.columns
    requires forall i :: 0 <= i < |t.rows| ==> CellOf(t.rows[i], metric) == None
    ensures CheckIdenticalValues(t, metric) == Success(false)
  {
  }

  // ---------------------------------------------------------------------
  // The tests

  /** The (feature, metric) cells of every row, missing ones included. */
  function CellPairs(rows: seq<Row>, feature: string, metric: string): (cells: seq<(Cell, Cell)>)
    ensures |cells| == |rows|
    ensures forall i :: 0 <= i < |rows| ==> cells[i] == (CellOf(rows[i], feature), CellOf(rows[i], metric))
  {
    seq(|rows|, i requires 0 <= i < |rows| => (CellOf(rows[i], feature), CellOf(rows[i], metric)))
  }

  /** The (feature, metric) pairs a cross-tabulation counts: each pair of
      present values as often as a row holds it; rows with a missing cell
      are not counted. */
  function CrossTabPairs(rows: seq<Row>, feature: string, metric: string): (pairs: seq<(Value, Value)>)
    ensures forall p :: multiset(pairs)[p] == multiset(CellPairs(rows, feature, metric))[(Some(p.0), Some(p.1))]
  {
    CrossTabPairsCounts(rows, feature, metric);
    PresentPairs(rows, feature, metric)
  }

  /** The recursion behind CrossTabPairs, row by row. */
  function PresentPairs(rows: seq<Row>, feature: string, metric: string): seq<(Value, Value)> {
    if rows == [] then []
    else
      var f, m := CellOf(rows[0], feature), CellOf(rows[0], metric);
      (if f.Some? && m.Some? then [(f.value, m.value)] else []) + PresentPairs(rows[1..], feature, metric)
  }

  lemma {:induction false} CrossTabPairsCounts(rows: seq<Row>, feature: string, metric: string)
    ensures forall p :: multiset(PresentPairs(rows, feature, metric))[p] == multiset(CellPairs(rows, feature, metric))[(Some(p.0), Some(p.1))]
  {
    if rows != [] {
      CrossTabPairsCounts(rows[1..], feature, metric);
      assert CellPairs(rows, feature, metric) == [(CellOf(rows[0], feature), CellOf(rows[0], metric))] + CellPairs(rows[1..], feature, metric);
    }
  }

  /** `_chi_squared_test` on the whole table. */
  function ChiSquaredTest(t: Table, feature: string, metric: string, lib: Library): (r: Result<(real, real), Error>)
    ensures r.Failure? <==> feature !in t.columns || metric !in t.columns
    ensures r.Failure? ==> r.error == (if feature !in t.columns then KeyError(feature) else KeyError(metric))
    ensures r.Success? ==> r.value == lib.chiSquared(CrossTabPairs(t.rows, feature, metric))
  {
    if feature !in t.columns then Failure(KeyError(feature))
    else if metric !in t.columns then Failure(KeyError(metric))
    else Success(lib.chiSquared(CrossTabPairs(t.rows, feature, metric)))
  }

  /** `_t_test`: skipped, with no statistic and no p-value, whenever the metric
      is constant over the whole table `t`, whatever the groups are; absent
      values occur in no other case. */
  function TTest(t: Table, groupA: Table, groupB: Table, metric: string, lib: Library): (r: Result<(Option<real>, Option<real>), Error>)
    ensures metric !in t.columns ==> r == Failure(KeyError(metric))
    ensures CheckIdenticalValues(t, metric) == Success(true) ==> r == Success((None, None))
    ensures r.Success? && (r.value.0.None? || r.value.1.None?) ==> r == Success((None, None)) && CheckIdenticalValues(t, metric) == Success(true)
    ensures r.Failure? <==> metric !in t.columns || (CheckIdenticalValues(t, metric) == Success(false) && (metric !in groupA.columns || metric !in groupB.columns))
    ensures r.Failure? ==> r.error == KeyError(metric)
    ensures r.Success? && CheckIdenticalValues(t, metric) == Success(false) ==>
              && metric in groupA.columns && metric in groupB.columns
              && var (stat, p) := lib.tTest(PresentValues(groupA.rows, metric), PresentValues(groupB.rows, metric));
                 r.value == (Some(stat), Some(p))
  {
    var identical :- CheckIdenticalValues(t, metric);
    if identical then Success((None, None))
    else if metric !in groupA.columns then Failure(KeyError(metric))
    else if metric !in groupB.columns then Failure(KeyError(metric))
    else
      var (stat, p) := lib.tTest(PresentValues(groupA.rows, metric), PresentValues(groupB.rows, metric));
      Success((Some(stat), Some(p)))
  }

  /** `_z_test`: the library z-test on the non-missing metric values of the groups. */
  function ZTest(groupA: Table, groupB: Table, metric: string, lib: Library): (r: Result<(real, real), Error>)
    ensures r.Failure? <==> metric !in groupA.columns || metric !in groupB.columns
    ensures r.Failure? ==> r.error == KeyError(metric)
    ensures r.Success? ==> r.value == lib.zTest(PresentValues(groupA.rows, metric), PresentValues(groupB.rows, metric))
  {
    if metric !in groupA.columns || metric !in groupB.columns then Failure(KeyError(metric))
    else Success(lib.zTest(PresentValues(groupA.rows, metric), PresentValues(groupB.rows, metric)))
  }

  /** `_interpret_p_value`: strict comparison against alpha, None meaning skipped. */
  function Interpret(pValue: Option<real>, alpha: real := 0.05): (s: string)
    ensures pValue.None? ==> s == SKIPPED
    ensures pValue.Some? && pValue.value < alpha ==> s == REJECT
    ensures pValue.Some? && pValue.value >= alpha ==> s == FAIL_TO_REJECT
  {
    if pValue.None? then SKIPPED
    else if pValue.value < alpha then REJECT
    else FAIL_TO_REJECT
  }

  /** The three messages are distinct, so the message tells exactly which case
      applied: rejection iff a p-value strictly below alpha. */
  lemma InterpretDecides(pValue: Option<real>, alpha: real)
    ensures Interpret(pValue, alpha) == REJECT <==> pValue.Some? && pValue.value < alpha
    ensures Interpret(pValue, alpha) == SKIPPED <==> pValue.None?
    ensures Interpret(pValue, alpha) == FAIL_TO_REJECT <==> pValue.Some? && pValue.value >= alpha
  {
    assert REJECT[0] != SKIPPED[0] && REJECT[0] != FAIL_TO_REJECT[0] && SKIPPED[0] != FAIL_TO_REJECT[0];
  }

  /** A p-value equal to alpha fails to reject; a smaller p-value never turns a
      rejection into a non-rejection. */
  lemma InterpretMonotone(p: real, q: real, alpha: real)
    requires q <= p
    ensures Interpret(Some(alpha), alpha) == FAIL_TO_REJECT
    ensures Interpret(Some(p), alpha) == REJECT ==> Interpret(Some(q), alpha) == REJECT
  {
    InterpretDecides(Some(p), alpha);
  }

  /** Every reported result carries the interpretation of its own p-value. */
  predicate Consistent(report: Report) {
    match report
    case ChiSquaredReport(_, _, p, s) => s == Interpret(Some(p))
    case TTestReport(_, p, s) => s == Interpret(p)
    case ZTestReport(_, p, s) => s == Interpret(Some(p))
    case Notice(_) => true
  }

  // ---------------------------------------------------------------------
  // Scenarios

  /** `_risk_across_provinces` (feature "Province") and `_risk_between_postalcodes`
      (feature "PostalCode"): the chi-squared test of the feature against TotalPremium. */
  function ChiSquaredScenario(t: Table, feature: string, lib: Library): (r: Result<Report, Error>)
    ensures r.Failure? <==> feature !in t.columns || TOTAL_PREMIUM !in t.columns
    ensures r.Success? ==> r.value.ChiSquaredReport? && r.value.feature == feature && Consistent(r.value)
    ensures r.Success? ==> ChiSquaredTest(t, feature, TOTAL_PREMIUM, lib) == Success((r.value.chi2, r.value.chiPValue))
    ensures r.Failure? ==> ChiSquaredTest(t, feature, TOTAL_PREMIUM, lib) == Failure(r.error)
  {
    var res :- ChiSquaredTest(t, feature, TOTAL_PREMIUM, lib);
    Success(ChiSquaredReport(feature, res.0, res.1, Interpret(Some(res.1))))
  }

  datatype TestKind = ZTestKind | TTestKind

  /** The t-test versus z-test choice: the z-test only when both groups have more than 30 rows. */
  function ChooseTest(sizeA: nat, sizeB: nat): (kind: TestKind)
    ensures kind == ZTestKind <==> sizeA > LARGE_SAMPLE && sizeB > LARGE_SAMPLE
  {
    if sizeA > LARGE_SAMPLE && sizeB > LARGE_SAMPLE then ZTestKind else TTestKind
  }

  /** Growing the groups never turns a z-test choice back into a t-test. */
  lemma ChooseTestMonotone(a: nat, b: nat, a': nat, b': nat)
    requires a <= a' && b <= b'
    ensures ChooseTest(a, b) == ZTestKind ==> ChooseTest(a', b') == ZTestKind
  {
  }

  /** The postal codes in order of first appearance, a missing code included once. */
  function PostalCodes(t: Table): seq<Cell> {
    Unique(Column(t.rows, "PostalCode"))
  }

  /** `_margin_between_postalcodes`: fewer than two distinct postal codes gives
      the fixed message; otherwise the groups of the first two codes are
      compared by the z-test exactly when both have more than 30 rows, and by
      the t-test otherwise. */
  function MarginBetweenPostalCodes(t: Table, lib: Library): (r: Result<Report, Error>)
    ensures "PostalCode" !in t.columns ==> r == Failure(KeyError("PostalCode"))
    ensures "PostalCode" in t.columns && |PostalCodes(t)| < 2 ==> r == Success(Notice(NOT_ENOUGH_POSTAL_CODES))
    ensures "PostalCode" in t.columns && |PostalCodes(t)| >= 2 ==>
              var groupA := Selected(t, "PostalCode", PostalCodes(t)[0]);
              var groupB := Selected(t, "PostalCode", PostalCodes(t)[1]);
              && (r.Success? ==> r.value.ZTestReport? || r.value.TTestReport?)
              && (r.Success? && r.value.ZTestReport? <==> r.Success? && |groupA.rows| > LARGE_SAMPLE && |groupB.rows| > LARGE_SAMPLE)
              && (r.Failure? <==> TOTAL_PREMIUM !in t.columns)
              && (r.Failure? ==> r.error == KeyError(TOTAL_PREMIUM))
              && (r.Success? && r.value.ZTestReport? ==>
                    ZTest(groupA, groupB, TOTAL_PREMIUM, lib) == Success((r.value.zStat, r.value.zPValue)))
              && (r.Success? && r.value.TTestReport? ==>
                    TTest(t, groupA, groupB, TOTAL_PREMIUM, lib) == Success((r.value.tStat, r.value.tPValue)))
    ensures r.Success? ==> Consistent(r.value)
  {
    if "PostalCode" !in t.columns then Failure(KeyError("PostalCode"))
    else
      var codes := PostalCodes(t);
      if |codes| < 2 then Success(Notice(NOT_ENOUGH_POSTAL_CODES))
      else
        var groupA := Segment(t, "PostalCode", Some(codes[0])).value;
        var groupB := Segment(t, "PostalCode", Some(codes[1])).value;
        assert groupA == Selected(t, "PostalCode", codes[0]) && groupB == Selected(t, "PostalCode", codes[1]);
        match ChooseTest(|groupA.rows|, |groupB.rows|)
        case ZTestKind =>
          var res :- ZTest(groupA, groupB, TOTAL_PREMIUM, lib);
          Success(ZTestReport(res.0, res.1, Interpret(Some(res.1))))
        case TTestKind =>
          var res :- TTest(t, groupA, groupB, TOTAL_PREMIUM, lib);
          Success(TTestReport(res.0, res.1, Interpret(res.1)))
  }

  /** The two compared groups are those of the first postal code in the table
      and of the first code that differs from it. */
  lemma MarginComparesFirstTwoCodes(t: Table, k: nat)
    requires 0 < k < |t.rows|
    requires CellOf(t.rows[k], "PostalCode") != CellOf(t.rows[0], "PostalCode")
    requires forall j :: 0 <= j < k ==> CellOf(t.rows[j], "PostalCode") == CellOf(t.rows[0], "PostalCode")
    ensures |PostalCodes(t)| >= 2
    ensures PostalCodes(t)[0] == CellOf(t.rows[0], "PostalCode")
    ensures PostalCodes(t)[1] == CellOf(t.rows[k], "PostalCode")
  {
    UniqueFirstTwo(Column(t.rows, "PostalCode"), k);
  }

  /** There are too few postal codes exactly when all rows share one code
      (missing counting as a code), or there are no rows. */
  lemma NotEnoughCodesIffAllEqual(t: Table)
    ensures |PostalCodes(t)| < 2 <==>
              forall i, j :: 0 <= i < |t.rows| && 0 <= j < |t.rows| ==> CellOf(t.rows[i], "PostalCode") == CellOf(t.rows[j], "PostalCode")
  {
    var col := Column(t.rows, "PostalCode");
    UniqueAtLeastTwo(col);
    if |PostalCodes(t)| >= 2 {
      var i, j :| 0 <= i < |col| && 0 <= j < |col| && col[i] != col[j];
      assert CellOf(t.rows[i], "PostalCode") != CellOf(t.rows[j], "PostalCode");
    }
  }

  /** A missing first postal code selects no row (NaN equals nothing), so the
      margin scenario then always takes the t-test branch. */
  lemma MissingFirstCodeMeansTTest(t: Table, lib: Library)
    requires "PostalCode" in t.columns && TOTAL_PREMIUM in t.columns
    requires |t.rows| > 0 && CellOf(t.rows[0], "PostalCode") == None
    requires |PostalCodes(t)| >= 2
    ensures MarginBetweenPostalCodes(t, lib).Success? && MarginBetweenPostalCodes(t, lib).value.TTestReport?
  {
    UniqueFirst(Column(t.rows, "PostalCode"));
    KeepMissingTarget(t.rows, "PostalCode");
  }

  /** The table after `_risk_between_genders`' first statement: the rows whose
      Gender is "Not Specified" removed. */
  function WithoutUnspecifiedGender(t: Table): (r: Table)
    ensures r.columns == t.columns && r.kinds == t.kinds
    ensures forall row :: row in r.rows <==> row in t.rows && CellOf(row, "Gender") != Some(Str(NOT_SPECIFIED))
    ensures r.rows == Keep(t.rows, NotIn("Gender", {Str(NOT_SPECIFIED)}))
  {
    t.(rows := Keep(t.rows, NotIn("Gender", {Str(NOT_SPECIFIED)})))
  }

  /** The filter is idempotent: once applied, applying it again leaves the table as it is. */
  lemma WithoutUnspecifiedGenderIdempotent(t: Table)
    ensures WithoutUnspecifiedGender(WithoutUnspecifiedGender(t)) == WithoutUnspecifiedGender(t)
  {
    KeepIdempotent(t.rows, NotIn("Gender", {Str(NOT_SPECIFIED)}));
  }

  /** Some row of `rows` has `value` in column `c`. */
  predicate HasRowWith(rows: seq<Row>, c: string, value: Value) {
    exists row :: row in rows && CellOf(row, c) == Some(value)
  }

  /** The test part of `_risk_between_genders`, on the already filtered table:
      the empty-group message exactly when no row is Male or no row is Female,
      otherwise the t-test of TotalPremium between the two groups. */
  function GenderTest(d: Table, lib: Library): (r: Result<Report, Error>)
    requires "Gender" in d.columns
    ensures r == Success(Notice(EMPTY_GENDER_GROUP)) <==> !HasRowWith(d.rows, "Gender", Str(MALE)) || !HasRowWith(d.rows, "Gender", Str(FEMALE))
    ensures r.Success? ==> (r.value == Notice(EMPTY_GENDER_GROUP) || r.value.TTestReport?) && Consistent(r.value)
    ensures r.Failure? <==> HasRowWith(d.rows, "Gender", Str(MALE)) && HasRowWith(d.rows, "Gender", Str(FEMALE)) && TOTAL_PREMIUM !in d.columns
    ensures r.Failure? ==> r.error == KeyError(TOTAL_PREMIUM)
    ensures r.Success? && r.value.TTestReport? ==>
              TTest(d, Selected(d, "Gender", Some(Str(MALE))), Selected(d, "Gender", Some(Str(FEMALE))), TOTAL_PREMIUM, lib)
              == Success((r.value.tStat, r.value.tPValue))
  {
    var groupA := Segment(d, "Gender", Some(Some(Str(MALE)))).value;
    var groupB := Segment(d, "Gender", Some(Some(Str(FEMALE)))).value;
    EmptyIffNone(groupA.rows, d.rows, Str(MALE));
    EmptyIffNone(groupB.rows, d.rows, Str(FEMALE));
    if |groupA.rows| == 0 || |groupB.rows| == 0 then Success(Notice(EMPTY_GENDER_GROUP))
    else
      var res :- TTest(d, groupA, groupB, TOTAL_PREMIUM, lib);
      Success(TTestReport(res.0, res.1, Interpret(res.1)))
  }

  lemma EmptyIffNone(group: seq<Row>, rows: seq<Row>, value: Value)
    requires forall row :: row in group <==> row in rows && Passes(EqualTo("Gender", Some(value)), row)
    ensures |group| == 0 <==> !HasRowWith(rows, "Gender", value)
  {
    if |group| > 0 {
      assert group[0] in group;
    }
  }

  /** A table with the four columns the battery uses, where one row's gender is
      "Not Specified", and a library whose chi-squared statistic is the number
      of counted pairs. */
  function ExampleTable(): Table {
    var cols := ["Province", "PostalCode", "Gender", TOTAL_PREMIUM];
    var r1 := map["Province" := Some(Str("A")), "PostalCode" := Some(Str("1")), "Gender" := Some(Str(NOT_SPECIFIED)), TOTAL_PREMIUM := Some(Num(1.0))];
    var r2 := map["Province" := Some(Str("A")), "PostalCode" := Some(Str("1")), "Gender" := Some(Str(MALE)), TOTAL_PREMIUM := Some(Num(2.0))];
    Table(cols, map["Province" := Object, "PostalCode" := Object, "Gender" := Object, TOTAL_PREMIUM := Numeric], [r1, r2])
  }

  function CountingLibrary(): Library {
    Library(pairs => (|pairs| as real, 0.5), (a, b) => (0.0, 0.5), (a, b) => (0.0, 0.5))
  }

  /** The battery is not idempotent: the gender scenario of a first run
      filters the table, so the province scenario of a second run hands the
      chi-squared routine other (Province, TotalPremium) pairs than the first
      run did, and with this library reports a different statistic. */
  lemma RunAllTestsNotIdempotent()
    ensures multiset(CrossTabPairs(ExampleTable().rows, "Province", TOTAL_PREMIUM))
         != multiset(CrossTabPairs(WithoutUnspecifiedGender(ExampleTable()).rows, "Province", TOTAL_PREMIUM))
    ensures ChiSquaredScenario(ExampleTable(), "Province", CountingLibrary())
         != ChiSquaredScenario(WithoutUnspecifiedGender(ExampleTable()), "Province", CountingLibrary())
  {
    var t := ExampleTable();
    var after := WithoutUnspecifiedGender(t);
    var test := NotIn("Gender", {Str(NOT_SPECIFIED)});
    assert !Passes(test, t.rows[0]) && Passes(test, t.rows[1]);
    assert t.rows[1..] == [t.rows[1]] && t.rows[1..][1..] == [];
    assert after.rows == [t.rows[1]];
    assert t.rows[1..][0] == t.rows[1];
    assert PresentPairs(t.rows[1..], "Province", TOTAL_PREMIUM) == [(Str("A"), Num(2.0))];
    assert CrossTabPairs(t.rows, "Province", TOTAL_PREMIUM) == [(Str("A"), Num(1.0)), (Str("A"), Num(2.0))];
    assert CrossTabPairs(after.rows, "Province", TOTAL_PREMIUM) == [(Str("A"), Num(2.0))];
  }

  // ---------------------------------------------------------------------
  // The class

  class ABHypothesisTesting {
    var data: Table
    const lib: Library

    constructor (data: Table, lib: Library)
      ensures this.data == data && this.lib == lib
    {
      this.data := data;
      this.lib := lib;
    }

    /** `_risk_between_genders`: replaces `data` with the table without the
        "Not Specified" rows, then tests the Male and Female groups of it. */
    method RiskBetweenGenders() returns (r: Result<Report, Error>)
      modifies this
      ensures "Gender" !in old(data).columns ==> r == Failure(KeyError("Gender")) && data == old(data)
      ensures "Gender" in old(data).columns ==> data == WithoutUnspecifiedGender(old(data)) && r == GenderTest(data, lib)
    {
      var filtered :- Segment(data, "Gender", None, Some({Str(NOT_SPECIFIED)}));
      data := filtered;
      var groupA := Segment(data, "Gender", Some(Some(Str(MALE)))).value;
      var groupB := Segment(data, "Gender", Some(Some(Str(FEMALE)))).value;
      if |groupA.rows| == 0 || |groupB.rows| == 0 {
        return Success(Notice(EMPTY_GENDER_GROUP));
      }
      var res :- TTest(data, groupA, groupB, TOTAL_PREMIUM, lib);
      r := Success(TTestReport(res.0, res.1, Interpret(res.1)));
    }

    /** `run_all_tests`: the four scenarios in order, keyed by their names. The
        first three see the table as it was; the gender scenario, evaluated
        last, then leaves the filtered table behind for any later call. An
        error in a scenario propagates and skips those after it. */
    method RunAllTests() returns (r: Result<map<string, Report>, Error>)
      modifies this
      ensures var provinces := ChiSquaredScenario(old(data), "Province", lib);
              var postalRisk := ChiSquaredScenario(old(data), "PostalCode", lib);
              var margin := MarginBetweenPostalCodes(old(data), lib);
              var firstThree := provinces.Success? && postalRisk.Success? && margin.Success?;
              && (r.Success? <==> firstThree && "Gender" in old(data).columns)
              && (r.Failure? ==> data == old(data))
              && (r.Failure? ==> r.error == (if provinces.Failure? then provinces.error
                                             else if postalRisk.Failure? then postalRisk.error
                                             else if margin.Failure? then margin.error
                                             else KeyError("Gender")))
              && (firstThree && "Gender" in old(data).columns ==> data == WithoutUnspecifiedGender(old(data)))
              && (r.Success? ==>
                    && r.value.Keys == {PROVINCES_KEY, POSTAL_RISK_KEY, POSTAL_MARGIN_KEY, GENDER_KEY}
                    && Success(r.value[PROVINCES_KEY]) == provinces
                    && Success(r.value[POSTAL_RISK_KEY]) == postalRisk
                    && Success(r.value[POSTAL_MARGIN_KEY]) == margin
                    && Success(r.value[GENDER_KEY]) == GenderTest(data, lib))
      ensures r.Success? ==> forall k :: k in r.value ==> Consistent(r.value[k])
    {
      var provinces :- ChiSquaredScenario(data, "Province", lib);
      var postalRisk :- ChiSquaredScenario(data, "PostalCode", lib);
      // with PostalCode and TotalPremium present, the margin scenario cannot fail
      var margin := MarginBetweenPostalCodes(data, lib).value;
      var gender :- RiskBetweenGenders();
      r := Success(map[PROVINCES_KEY := provinces, POSTAL_RISK_KEY := postalRisk,
                       POSTAL_MARGIN_KEY := margin, GENDER_KEY := gender]);
    }
  }
}
