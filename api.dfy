/**
 * The pure helpers of `api/main.py`: the model id of a scenario id, the
 * column-name and aggregate text builders, the choice and validation of the
 * target year, the timesteps up to that year with the cumulative
 * investment-cost expression over them, and the feature-type array that the
 * scenario endpoint hands to the expander.
 *
 * A Python `int` parameter that may be `None` is an `Option<int>`; Python's
 * truthiness of it (`None` and `0` are false) is `Truthy`.
 */
module Api {

  import opened Wrappers
  import opened Text
  import Expander

  /** The errors these helpers raise. */
  datatype ApiError =
    | EmptyField               // `field[0]` on an empty field name (IndexError)
    | InvalidYear(year: Option<int>)  // the year is not one of the model's timesteps
    | FilterWithoutValue       // a filter with none of min, max, options

  /** Python truthiness of an optional int. */
  predicate Truthy(year: Option<int>)
  {
    year.Some? && year.value != 0
  }

  /** Python truthiness of an optional string. */
  predicate Given(name: Option<string>)
  {
    name.Some? && name.value != ""
  }

  // ---------------------------------------------------------------------------
  // Model id

  /**
   * `sid.split('-')[-1]`: the text after the last '-'. It is a suffix of the
   * scenario id, contains no '-', and is either the whole id or preceded by '-'.
   */
  function ScenarioIdToModelId(sid: string): (r: string)
    ensures '-' !in r
    ensures |r| <= |sid| && sid[|sid| - |r|..] == r
    ensures |r| < |sid| ==> sid[|sid| - |r| - 1] == '-'
    ensures '-' !in sid ==> r == sid
  {
    var parts := Split(sid, '-');
    SplitLast(sid, '-');
    SplitPiecesHaveNoSeparator(sid, '-');
    assert '-' !in sid ==> IndexOf(sid, '-') == |sid| && sid[..|sid|] == sid;
    parts[|parts| - 1]
  }

  /** Whatever precedes the last '-', the model id is the dash-free text after it. */
  lemma ModelIdAfterLastDash(front: string, last: string)
    requires '-' !in last
    ensures ScenarioIdToModelId(front + "-" + last) == last
  {
    SplitAfterLastSeparator(front + "-" + last, front, '-', last);
  }

  /** The id of a three-part scenario is its last part. */
  lemma ModelIdOfThreePartScenario()
    ensures ScenarioIdToModelId("abc-countryx-1") == "1"
  {
    assert "abc-countryx-1" == "abc-countryx" + "-" + "1";
    ModelIdAfterLastDash("abc-countryx", "1");
  }

  // ---------------------------------------------------------------------------
  // Column names and aggregates

  /**
   * `yearField(field, year)`: the field unchanged for a falsy year, otherwise
   * the field followed by the year as `str()` prints it: canonical integer
   * text (no leading zero) that reads back as the year. By
   * `CanonicalIntTextUnique` that pins the suffix down exactly.
   */
  function YearField(field: string, year: Option<int>): (r: string)
    ensures !Truthy(year) ==> r == field
    ensures Truthy(year) ==>
      && |field| < |r|
      && r[..|field|] == field
      && CanonicalIntText(r[|field|..])
      && ReadInt(r[|field|..]) == year.value
  {
    if Truthy(year) then
      var digits := IntToDecimal(year.value);
      IntToDecimalRoundTrip(year.value);
      assert (field + digits)[|field|..] == digits;
      field + digits
    else
      field
  }

  /** Two truthy years never give the same column name for one field. */
  lemma YearFieldInjective(field: string, a: Option<int>, b: Option<int>)
    requires Truthy(a) && Truthy(b)
    requires YearField(field, a) == YearField(field, b)
    ensures a == b
  {
  }

  /** The alias `yearFieldAs` falls back on: the field with its first character lowercased. */
  function DefaultAlias(field: string): (alias: string)
    requires field != ""
    ensures |alias| == |field| && alias[1..] == field[1..]
    ensures alias[0] == LowerChar(field[0])
  {
    [LowerChar(field[0])] + field[1..]
  }

  /**
   * `yearFieldAs(field, year, as_name)`: for a truthy year the year-suffixed
   * column with an alias (`as_name` when given, otherwise the field with its
   * first character lowercased, which fails on an empty field); for a falsy
   * year the bare field with no alias.
   */
  function YearFieldAs(field: string, year: Option<int>, asName: Option<string>): (r: Result<string, ApiError>)
    ensures !Truthy(year) ==> r == Ok(field)
    ensures Truthy(year) ==> (r.Err? <==> !Given(asName) && field == "")
    ensures Truthy(year) && r.Ok? ==>
      r.value == YearField(field, year) + " as " + if Given(asName) then asName.value else DefaultAlias(field)
    ensures r.Err? ==> r.error == EmptyField
  {
    if Truthy(year) then
      if Given(asName) then Ok(YearField(field, year) + " as " + asName.value)
      else if field == "" then Err(EmptyField)
      else Ok(YearField(field, year) + " as " + DefaultAlias(field))
    else
      Ok(field)
  }

  /**
   * `_sum(f, as_name)`: the aggregate `sum(<f>)`, followed by ` as <name>`
   * exactly when a name is given.
   */
  function Sum(expr: string, asName: Option<string>): (r: string)
    ensures |r| >= |expr| + 5 && r[..|expr| + 5] == "sum(" + expr + ")"
    ensures |r| > |expr| + 5 <==> Given(asName)
    ensures Given(asName) ==> r[|expr| + 5..] == " as " + asName.value
  {
    var aggregate := "sum(" + expr + ")";
    if Given(asName) then aggregate + " as " + asName.value else aggregate
  }

  // ---------------------------------------------------------------------------
  // Target year

  /** The scenario endpoint defaults to the first timestep, the feature endpoint to the last. */
  datatype Endpoint = ScenarioEndpoint | FeatureEndpoint

  /**
   * The year defaulting and validation of `scenario` and `feature`: with no
   * timesteps the year is left as it is; otherwise a falsy year becomes the
   * endpoint's default timestep and a year outside the timesteps is an error.
   */
  function SelectYear(timesteps: seq<int>, year: Option<int>, endpoint: Endpoint): (r: Result<Option<int>, ApiError>)
    ensures timesteps == [] ==> r == Ok(year)
    ensures timesteps != [] ==> (r.Ok? <==> !Truthy(year) || year.value in timesteps)
    ensures timesteps != [] && r.Ok? ==> r.value.Some? && r.value.value in timesteps
    ensures timesteps != [] && !Truthy(year) ==>
      r == Ok(Some(if endpoint == ScenarioEndpoint then timesteps[0] else timesteps[|timesteps| - 1]))
    ensures Truthy(year) && r.Ok? ==> r.value == year
    ensures r.Err? ==> r.error == InvalidYear(year)
  {
    if timesteps == [] then Ok(year)
    else
      var y :=
        if Truthy(year) then year.value
        else if endpoint == ScenarioEndpoint then timesteps[0]
        else timesteps[|timesteps| - 1];
      if y in timesteps then Ok(Some(y)) else Err(InvalidYear(year))
  }

  // ---------------------------------------------------------------------------
  // Included steps and the cumulative investment cost

  /**
   * `[y for y in timesteps if y <= year]`: every timestep up to the year, each
   * as often as it occurs, and nothing else.
   */
  function IncludedSteps(timesteps: seq<int>, year: int): (steps: seq<int>)
    ensures forall y :: multiset(steps)[y] == if y <= year then multiset(timesteps)[y] else 0
    ensures forall y :: y in steps <==> y in timesteps && y <= year
  {
    if timesteps == [] then []
    else
      assert timesteps == [timesteps[0]] + timesteps[1..];
      var rest := IncludedSteps(timesteps[1..], year);
      var steps := if timesteps[0] <= year then [timesteps[0]] + rest else rest;
      assert forall y :: y in steps <==> multiset(steps)[y] > 0;
      assert forall y :: y in timesteps <==> multiset(timesteps)[y] > 0;
      steps
  }

  /** `a` is `b` with some elements left out, in the same order. */
  predicate IsSubsequence(a: seq<int>, b: seq<int>)
    decreases |b|
  {
    a == [] || (b != [] && if a[0] == b[0] then IsSubsequence(a[1..], b[1..]) else IsSubsequence(a, b[1..]))
  }

  /** The included steps keep the order of the timesteps. */
  lemma {:induction false} IncludedStepsInOrder(timesteps: seq<int>, year: int)
    ensures IsSubsequence(IncludedSteps(timesteps, year), timesteps)
    decreases |timesteps|
  {
    if timesteps != [] {
      IncludedStepsInOrder(timesteps[1..], year);
      var steps := IncludedSteps(timesteps, year);
      if timesteps[0] > year && steps != [] {
        assert steps[0] in steps;
      }
    }
  }

  /** No timestep up to the year, no included step. */
  lemma {:induction false} NothingIncluded(timesteps: seq<int>, year: int)
    requires forall i :: 0 <= i < |timesteps| ==> timesteps[i] > year
    ensures IncludedSteps(timesteps, year) == []
    decreases |timesteps|
  {
    if timesteps != [] {
      NothingIncluded(timesteps[1..], year);
    }
  }

  /** With ascending timesteps the included steps are a prefix of them. */
  lemma {:induction false} IncludedStepsOfAscending(timesteps: seq<int>, year: int)
    requires forall i, j :: 0 <= i < j < |timesteps| ==> timesteps[i] < timesteps[j]
    ensures var steps := IncludedSteps(timesteps, year);
      |steps| <= |timesteps| && steps == timesteps[..|steps|]
    decreases |timesteps|
  {
    if timesteps != [] {
      var steps := IncludedSteps(timesteps, year);
      if timesteps[0] > year {
        NothingIncluded(timesteps, year);
      } else {
        IncludedStepsOfAscending(timesteps[1..], year);
      }
    }
  }

  /** Once the year has been validated against non-empty timesteps, at least the year itself is included. */
  lemma ValidatedYearIncluded(timesteps: seq<int>, year: Option<int>, endpoint: Endpoint)
    requires timesteps != [] && SelectYear(timesteps, year, endpoint).Ok?
    ensures var y := SelectYear(timesteps, year, endpoint).value.value;
      y in IncludedSteps(timesteps, y)
  {
  }

  /** One year's term of the investment-cost sum: `(InvestmentCost<y> * ElecStatusIn<y>)`. */
  function CostTerm(y: int): string
  {
    "(" + YearField("InvestmentCost", Some(y)) + " * " + YearField("ElecStatusIn", Some(y)) + ")"
  }

  /** The decimal text of a year has no '+', so suffixing a '+'-free field keeps it '+'-free. */
  lemma YearFieldHasNoPlus(field: string, year: Option<int>)
    requires '+' !in field
    ensures '+' !in YearField(field, year)
  {
    if Truthy(year) {
      var digits := IntToDecimal(year.value);
      var n := if year.value < 0 then -year.value else year.value;
      assert AllDigits(NatToDecimal(n));
      assert digits == NatToDecimal(n) || digits == "-" + NatToDecimal(n);
      assert '+' !in digits;
      assert YearField(field, year) == field + digits;
    }
  }

  lemma CostTermHasNoPlus(y: int)
    ensures '+' !in CostTerm(y)
  {
    var a := YearField("InvestmentCost", Some(y));
    var b := YearField("ElecStatusIn", Some(y));
    YearFieldHasNoPlus("InvestmentCost", Some(y));
    YearFieldHasNoPlus("ElecStatusIn", Some(y));
    assert CostTerm(y) == "(" + a + " * " + b + ")";
  }

  /**
   * `investmentCostSelector`: the included steps' cost terms joined by '+'.
   * Splitting it on '+' gives back exactly one term per included step, in
   * order; with no included step it is empty.
   */
  function InvestmentCostSelector(timesteps: seq<int>, year: int): (sel: string)
    ensures IncludedSteps(timesteps, year) == [] ==> sel == ""
    ensures IncludedSteps(timesteps, year) != [] ==>
      Split(sel, '+') == Expander.Reshape(IncludedSteps(timesteps, year), CostTerm)
  {
    var terms := Expander.Reshape(IncludedSteps(timesteps, year), CostTerm);
    if terms != [] then
      assert forall k :: 0 <= k < |terms| ==> '+' !in terms[k] by {
        forall k | 0 <= k < |terms| ensures '+' !in terms[k] {
          CostTermHasNoPlus(IncludedSteps(timesteps, year)[k]);
        }
      }
      SplitJoin(terms, '+');
      Join(terms, '+')
    else
      Join(terms, '+')
  }

  // ---------------------------------------------------------------------------
  // Feature types

  /** A row of the per-feature query: the feature id and its electrification code at the target year. */
  datatype FeatureRow = FeatureRow(id: int, tech: string)

  /** Feature ids that are non-negative and strictly ascending, as `order by featureId asc` gives distinct ids. */
  ghost predicate AscendingIds(rows: seq<FeatureRow>)
  {
    && (forall i :: 0 <= i < |rows| ==> rows[i].id >= 0)
    && (forall i, j :: 0 <= i < j < |rows| ==> rows[i].id < rows[j].id)
  }

  ghost function Ids(rows: seq<FeatureRow>): set<int>
  {
    set i | 0 <= i < |rows| :: rows[i].id
  }

  /** `featureTypes`: the rows reshaped to (id, tech) and expanded with default ''. */
  function FeatureTypes(rows: seq<FeatureRow>): seq<string>
  {
    Expander.Expanded(Expander.Reshape(rows, (row: FeatureRow) => (row.id, row.tech)), "")
  }

  /**
   * For rows with ascending ids the feature-type array is indexed by feature
   * id: it is as long as the largest id + 1, holds each row's code at its id
   * and '' at every id no row has.
   */
  lemma FeatureTypesIndexed(rows: seq<FeatureRow>)
    requires AscendingIds(rows)
    ensures var types := FeatureTypes(rows);
      && |types| == (if rows == [] then 0 else rows[|rows| - 1].id + 1)
      && (forall i :: 0 <= i < |rows| ==> rows[i].id < |types| && types[rows[i].id] == rows[i].tech)
      && (forall q :: 0 <= q < |types| && q !in Ids(rows) ==> types[q] == "")
  {
    var pairs := Expander.Reshape(rows, (row: FeatureRow) => (row.id, row.tech));
    assert forall k :: 0 <= k < |pairs| ==> pairs[k] == (rows[k].id, rows[k].tech);
    assert Expander.Sparse(pairs);
    assert Expander.Indices(pairs) == Ids(rows);
    Expander.SparseLength(pairs, "");
    Expander.SparsePlacement(pairs, "");
    Expander.SparsePadding(pairs, "");
  }
}
