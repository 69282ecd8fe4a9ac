/**
 * The filter handling of the scenario endpoint in `api/main.py`: the check
 * that every filter carries a value, and the loop that accumulates the WHERE
 * predicates (`wheres`) and the bound parameters (`vals`).
 *
 * The source loop looks the filter's definition up in the model and then
 * reads an unbound name `key` as the column, so the column cannot be taken
 * from the code: here each filter arrives paired with its definition (the
 * column name and the `timestamp` flag that makes it year-suffixed). The
 * predicate text is reproduced exactly as written; a corrected builder at the
 * end states what the text evidently means to do.
 */
module Filters {

  import opened Wrappers
  import opened Api
  import Expander

  /** A user filter: `FilterModel(key, min, max, options)`. */
  datatype FilterRequest = FilterRequest(key: string, min: Option<real>, max: Option<real>, options: Option<seq<string>>)

  /** `any(getattr(f, att) for att in ('min', 'max', 'options'))`: 0.0 and [] are falsy. */
  predicate HasValue(f: FilterRequest)
  {
    || (f.min.Some? && f.min.value != 0.0)
    || (f.max.Some? && f.max.value != 0.0)
    || (f.options.Some? && f.options.value != [])
  }

  /**
   * `if filters: for f in filters: ... raise ... else: filters = []`: no
   * filters become the empty list; otherwise the filters are accepted
   * unchanged exactly when every one of them has a truthy min, max or options.
   */
  method CheckFilters(filters: Option<seq<FilterRequest>>) returns (r: Result<seq<FilterRequest>, ApiError>)
    ensures filters.None? ==> r == Ok([])
    ensures filters.Some? ==> (r.Ok? <==> forall i :: 0 <= i < |filters.value| ==> HasValue(filters.value[i]))
    ensures filters.Some? && r.Ok? ==> r.value == filters.value
    ensures r.Err? ==> r.error == FilterWithoutValue
  {
    if filters.None? || filters.value == [] {
      return Ok([]);
    }
    var fs := filters.value;
    for i := 0 to |fs|
      invariant forall j :: 0 <= j < i ==> HasValue(fs[j])
    {
      if !HasValue(fs[i]) {
        return Err(FilterWithoutValue);
      }
    }
    return Ok(fs);
  }

  /** A model's definition of a filter: the column it constrains and whether that column is year-suffixed. */
  datatype FilterDef = FilterDef(column: string, timestamp: bool)

  /** A user filter together with the definition its key resolves to. */
  datatype BoundFilter = BoundFilter(def: FilterDef, request: FilterRequest)

  /** A value in the parameter map `vals`. */
  datatype Param = Str(text: string) | Num(number: real) | StrList(items: seq<string>) | NoneParam

  /** The first predicate, as written: its placeholder is spelled `scenaroiId`. */
  const ScenarioPredicate: string := "scenarioId = %(scenaroiId)s"

  /** The column a filter constrains: year-suffixed when its definition says `timestamp`. */
  function Column(def: FilterDef, year: Option<int>): string
  {
    if def.timestamp then YearField(def.column, year) else def.column
  }

  function OptionsParam(options: Option<seq<string>>): Param
  {
    match options
    case None => NoneParam
    case Some(items) => StrList(items)
  }

  /** The predicates one filter appends: `>=` for a min, `<=` for a max, and `in` again for a min. */
  function FilterPredicates(key: string, f: FilterRequest): seq<string>
  {
    (if f.min.Some? then [key + " >= %(key)smin"] else [])
    + (if f.max.Some? then [key + " <= %(key)smax"] else [])
    + (if f.min.Some? then [key + " in %(key)soptions"] else [])
  }

  /** The parameter names one filter binds: `<key>min` and `<key>options` for a min, `<key>max` for a max. */
  function NamesBound(key: string, f: FilterRequest): set<string>
  {
    (if f.min.Some? then {key + "min", key + "options"} else {})
    + (if f.max.Some? then {key + "max"} else {})
  }

  /** Names built from two keys with different suffixes never coincide; with the same suffix they coincide only for the same key. */
  lemma SuffixedNamesDistinct(a: string, b: string)
    ensures a + "min" != b + "max" && a + "min" != b + "options" && a + "max" != b + "options"
    ensures a != b ==> a + "min" != b + "min" && a + "max" != b + "max" && a + "options" != b + "options"
  {
    assert (a + "min")[|a| + 2] == 'n' && (a + "max")[|a| + 2] == 'x' && (a + "options")[|a| + 6] == 's';
    assert (b + "min")[|b| + 2] == 'n' && (b + "max")[|b| + 2] == 'x' && (b + "options")[|b| + 6] == 's';
    assert (a + "min")[..|a|] == a && (a + "max")[..|a|] == a && (a + "options")[..|a|] == a;
    assert (b + "min")[..|b|] == b && (b + "max")[..|b|] == b && (b + "options")[..|b|] == b;
  }

  /**
   * The parameters one filter binds, in the order the loop binds them: the
   * names `NamesBound` lists are added, each holding the filter's own bound
   * (the options under the min's guard), and every other name is untouched.
   */
  function FilterParams(vals: map<string, Param>, key: string, f: FilterRequest): (r: map<string, Param>)
    ensures r.Keys == vals.Keys + NamesBound(key, f)
    ensures forall k :: k in vals && k !in NamesBound(key, f) ==> r[k] == vals[k]
    ensures f.min.Some? ==> r[key + "min"] == Num(f.min.value) && r[key + "options"] == OptionsParam(f.options)
    ensures f.max.Some? ==> r[key + "max"] == Num(f.max.value)
  {
    SuffixedNamesDistinct(key, key);
    var withMin := if f.min.Some? then vals[key + "min" := Num(f.min.value)] else vals;
    var withMax := if f.max.Some? then withMin[key + "max" := Num(f.max.value)] else withMin;
    if f.min.Some? then withMax[key + "options" := OptionsParam(f.options)] else withMax
  }

  /** `wheres` after the loop has handled `filters`. */
  function Wheres(filters: seq<BoundFilter>, year: Option<int>): (wheres: seq<string>)
    ensures |wheres| >= 1 && wheres[0] == ScenarioPredicate
    decreases |filters|
  {
    if filters == [] then [ScenarioPredicate]
    else
      var f := filters[|filters| - 1];
      Wheres(filters[..|filters| - 1], year) + FilterPredicates(Column(f.def, year), f.request)
  }

  /** `vals` after the loop has handled `filters`: the scenario id stays bound to `sid` throughout. */
  function Vals(sid: string, filters: seq<BoundFilter>, year: Option<int>): (vals: map<string, Param>)
    ensures "scenarioId" in vals && vals["scenarioId"] == Str(sid)
    decreases |filters|
  {
    if filters == [] then map["scenarioId" := Str(sid)]
    else
      var f := filters[|filters| - 1];
      NotAFilterName(Column(f.def, year), f.request, "scenarioId");
      FilterParams(Vals(sid, filters[..|filters| - 1], year), Column(f.def, year), f.request)
  }

  /** The accumulation loop of `scenario`, lines 237-251, with each filter's column given. */
  method BuildPredicates(sid: string, filters: seq<BoundFilter>, year: Option<int>)
    returns (wheres: seq<string>, vals: map<string, Param>)
    ensures wheres == Wheres(filters, year)
    ensures vals == Vals(sid, filters, year)
  {
    wheres := [ScenarioPredicate];
    vals := map["scenarioId" := Str(sid)];
    for i := 0 to |filters|
      invariant wheres == Wheres(filters[..i], year)
      invariant vals == Vals(sid, filters[..i], year)
    {
      var f := filters[i].request;
      var key := Column(filters[i].def, year);
      ghost var wheres0, vals0 := wheres, vals;
      if f.min.Some? {
        wheres := wheres + [key + " >= %(key)smin"];
        vals := vals[key + "min" := Num(f.min.value)];
      }
      if f.max.Some? {
        wheres := wheres + [key + " <= %(key)smax"];
        vals := vals[key + "max" := Num(f.max.value)];
      }
      if f.min.Some? {
        wheres := wheres + [key + " in %(key)soptions"];
        vals := vals[key + "options" := OptionsParam(f.options)];
      }
      assert wheres == wheres0 + FilterPredicates(key, f);
      assert vals == FilterParams(vals0, key, f);
      WheresStep(filters, year, i);
      ValsStep(sid, filters, year, i);
    }
    assert filters[..|filters|] == filters;
  }

  // ---------------------------------------------------------------------------
  // What the loop keeps

  /** Handling filter `n` appends its predicates to `wheres`. */
  lemma WheresStep(filters: seq<BoundFilter>, year: Option<int>, n: nat)
    requires n < |filters|
    ensures Wheres(filters[..n + 1], year) == Wheres(filters[..n], year) + FilterPredicates(Column(filters[n].def, year), filters[n].request)
  {
    var upto := filters[..n + 1];
    assert upto[..n] == filters[..n];
    assert upto[n] == filters[n];
  }

  /** Handling filter `n` binds its parameters in `vals`. */
  lemma ValsStep(sid: string, filters: seq<BoundFilter>, year: Option<int>, n: nat)
    requires n < |filters|
    ensures Vals(sid, filters[..n + 1], year) == FilterParams(Vals(sid, filters[..n], year), Column(filters[n].def, year), filters[n].request)
  {
    var upto := filters[..n + 1];
    assert upto[..n] == filters[..n];
    assert upto[n] == filters[n];
  }

  /** A prefix of a sequence that starts with `xs + ys` starts with `xs`. */
  lemma PrefixOfPrefix<T>(xs: seq<T>, ys: seq<T>, whole: seq<T>)
    requires |xs + ys| <= |whole| && whole[..|xs + ys|] == xs + ys
    ensures |xs| <= |whole| && whole[..|xs|] == xs
  {
    assert whole[..|xs|] == (xs + ys)[..|xs|];
  }

  /** Which predicates a filter with a min or a max writes. */
  lemma PredicatesListed(key: string, f: FilterRequest)
    ensures f.min.Some? ==> key + " >= %(key)smin" in FilterPredicates(key, f) && key + " in %(key)soptions" in FilterPredicates(key, f)
    ensures f.max.Some? ==> key + " <= %(key)smax" in FilterPredicates(key, f)
  {
    var added := FilterPredicates(key, f);
    if f.min.Some? {
      assert added[0] == key + " >= %(key)smin";
      assert added[|added| - 1] == key + " in %(key)soptions";
    }
    if f.max.Some? {
      assert added[if f.min.Some? then 1 else 0] == key + " <= %(key)smax";
    }
  }

  /** The loop only appends: the predicates after the first `n` filters stay the start of the final list, which begins with the scenario predicate. */
  lemma {:induction false} WheresAppendOnly(filters: seq<BoundFilter>, year: Option<int>, n: nat)
    requires n <= |filters|
    ensures var before, after := Wheres(filters[..n], year), Wheres(filters, year);
      |before| <= |after| && after[..|before|] == before
    decreases |filters| - n
  {
    if n < |filters| {
      WheresAppendOnly(filters, year, n + 1);
      WheresStep(filters, year, n);
      PrefixOfPrefix(Wheres(filters[..n], year), FilterPredicates(Column(filters[n].def, year), filters[n].request), Wheres(filters, year));
    } else {
      assert filters[..n] == filters;
    }
  }

  /** Bound parameter names never shrink as the loop goes on. */
  lemma {:induction false} ValsKeysGrow(sid: string, filters: seq<BoundFilter>, year: Option<int>, n: nat)
    requires n <= |filters|
    ensures Vals(sid, filters[..n], year).Keys <= Vals(sid, filters, year).Keys
    decreases |filters| - n
  {
    if n < |filters| {
      ValsKeysGrow(sid, filters, year, n + 1);
      ValsStep(sid, filters, year, n);
    } else {
      assert filters[..n] == filters;
    }
  }

  /** An element of a prefix is an element of the whole. */
  lemma InPrefix<T>(prefix: seq<T>, whole: seq<T>, x: T)
    requires |prefix| <= |whole| && whole[..|prefix|] == prefix && x in prefix
    ensures x in whole
  {
    var k :| 0 <= k < |prefix| && prefix[k] == x;
    assert whole[k] == x;
  }

  /** What filter `i` appended is still in the final predicates and parameters. */
  lemma FilterContributionAt(sid: string, filters: seq<BoundFilter>, year: Option<int>, i: nat)
    requires i < |filters|
    ensures var key, f, wheres, vals := Column(filters[i].def, year), filters[i].request, Wheres(filters, year), Vals(sid, filters, year);
      && (f.min.Some? ==>
            && key + " >= %(key)smin" in wheres && key + " in %(key)soptions" in wheres
            && key + "min" in vals && key + "options" in vals)
      && (f.max.Some? ==> key + " <= %(key)smax" in wheres && key + "max" in vals)
  {
    var key, f := Column(filters[i].def, year), filters[i].request;
    WheresStep(filters, year, i);
    ValsStep(sid, filters, year, i);
    WheresAppendOnly(filters, year, i + 1);
    ValsKeysGrow(sid, filters, year, i + 1);
    PredicatesListed(key, f);
    var before, after := Wheres(filters[..i + 1], year), Wheres(filters, year);
    forall w | w in FilterPredicates(key, f) ensures w in after {
      InPrefix(before, after, w);
    }
  }

  /** No later filter on the same column has a min: this filter's min and options are the ones bound. */
  ghost predicate LastMinOn(filters: seq<BoundFilter>, year: Option<int>, i: nat)
    requires i < |filters|
  {
    forall j :: i < j < |filters| && Column(filters[j].def, year) == Column(filters[i].def, year) ==> filters[j].request.min.None?
  }

  /** No later filter on the same column has a max: this filter's max is the one bound. */
  ghost predicate LastMaxOn(filters: seq<BoundFilter>, year: Option<int>, i: nat)
    requires i < |filters|
  {
    forall j :: i < j < |filters| && Column(filters[j].def, year) == Column(filters[i].def, year) ==> filters[j].request.max.None?
  }

  /** A name that no filter after the first `n` binds keeps the value it had after them. */
  lemma {:induction false} ValsUnchangedFrom(sid: string, filters: seq<BoundFilter>, year: Option<int>, n: nat, k: string)
    requires n <= |filters| && k in Vals(sid, filters[..n], year)
    requires forall j :: n <= j < |filters| ==> k !in NamesBound(Column(filters[j].def, year), filters[j].request)
    ensures k in Vals(sid, filters, year) && Vals(sid, filters, year)[k] == Vals(sid, filters[..n], year)[k]
    decreases |filters| - n
  {
    if n < |filters| {
      ValsStep(sid, filters, year, n);
      ValsUnchangedFrom(sid, filters, year, n + 1, k);
    } else {
      assert filters[..n] == filters;
    }
  }

  /** The values filter `i` binds survive to the end unless a later filter on the same column rebinds them. */
  lemma FilterValuesAt(sid: string, filters: seq<BoundFilter>, year: Option<int>, i: nat)
    requires i < |filters|
    ensures var key, f, vals := Column(filters[i].def, year), filters[i].request, Vals(sid, filters, year);
      && (f.min.Some? && LastMinOn(filters, year, i) ==>
            && key + "min" in vals && vals[key + "min"] == Num(f.min.value)
            && key + "options" in vals && vals[key + "options"] == OptionsParam(f.options))
      && (f.max.Some? && LastMaxOn(filters, year, i) ==>
            key + "max" in vals && vals[key + "max"] == Num(f.max.value))
  {
    var key, f := Column(filters[i].def, year), filters[i].request;
    ValsStep(sid, filters, year, i);
    if f.min.Some? && LastMinOn(filters, year, i) {
      forall j | i + 1 <= j < |filters|
        ensures key + "min" !in NamesBound(Column(filters[j].def, year), filters[j].request)
        ensures key + "options" !in NamesBound(Column(filters[j].def, year), filters[j].request)
      {
        MinNotRebound(key, Column(filters[j].def, year), filters[j].request);
      }
      ValsUnchangedFrom(sid, filters, year, i + 1, key + "min");
      ValsUnchangedFrom(sid, filters, year, i + 1, key + "options");
    }
    if f.max.Some? && LastMaxOn(filters, year, i) {
      forall j | i + 1 <= j < |filters|
        ensures key + "max" !in NamesBound(Column(filters[j].def, year), filters[j].request)
      {
        MaxNotRebound(key, Column(filters[j].def, year), filters[j].request);
      }
      ValsUnchangedFrom(sid, filters, year, i + 1, key + "max");
    }
  }

  /** A later filter rebinds `<key>min` and `<key>options` only if it is on the same column and has a min. */
  lemma MinNotRebound(key: string, other: string, g: FilterRequest)
    requires other != key || g.min.None?
    ensures key + "min" !in NamesBound(other, g) && key + "options" !in NamesBound(other, g)
  {
    SuffixedNamesDistinct(key, other);
    SuffixedNamesDistinct(other, key);
  }

  /** A later filter rebinds `<key>max` only if it is on the same column and has a max. */
  lemma MaxNotRebound(key: string, other: string, g: FilterRequest)
    requires other != key || g.max.None?
    ensures key + "max" !in NamesBound(other, g)
  {
    SuffixedNamesDistinct(key, other);
    SuffixedNamesDistinct(other, key);
  }

  /**
   * Every filter leaves its mark: a min adds `<column> >= ...` and binds
   * `<column>min`, a max adds `<column> <= ...` and binds `<column>max`, and a
   * min (not the options) adds `<column> in ...` and binds `<column>options`.
   * The bound values are the filter's own min, max and options, unless a later
   * filter on the same column rebinds them.
   */
  lemma FilterContributions(sid: string, filters: seq<BoundFilter>, year: Option<int>)
    ensures forall i :: 0 <= i < |filters| && filters[i].request.min.Some? ==>
      var key := Column(filters[i].def, year);
      && key + " >= %(key)smin" in Wheres(filters, year)
      && key + " in %(key)soptions" in Wheres(filters, year)
      && key + "min" in Vals(sid, filters, year)
      && key + "options" in Vals(sid, filters, year)
    ensures forall i :: 0 <= i < |filters| && filters[i].request.max.Some? ==>
      var key := Column(filters[i].def, year);
      && key + " <= %(key)smax" in Wheres(filters, year)
      && key + "max" in Vals(sid, filters, year)
    ensures forall i :: 0 <= i < |filters| && filters[i].request.min.Some? && LastMinOn(filters, year, i) ==>
      var key, vals := Column(filters[i].def, year), Vals(sid, filters, year);
      && key + "min" in vals && vals[key + "min"] == Num(filters[i].request.min.value)
      && key + "options" in vals && vals[key + "options"] == OptionsParam(filters[i].request.options)
    ensures forall i :: 0 <= i < |filters| && filters[i].request.max.Some? && LastMaxOn(filters, year, i) ==>
      var key, vals := Column(filters[i].def, year), Vals(sid, filters, year);
      key + "max" in vals && vals[key + "max"] == Num(filters[i].request.max.value)
  {
    forall i | 0 <= i < |filters|
      ensures filters[i].request.min.Some? ==>
        var key := Column(filters[i].def, year);
        && key + " >= %(key)smin" in Wheres(filters, year)
        && key + " in %(key)soptions" in Wheres(filters, year)
        && key + "min" in Vals(sid, filters, year)
        && key + "options" in Vals(sid, filters, year)
      ensures filters[i].request.max.Some? ==>
        var key := Column(filters[i].def, year);
        && key + " <= %(key)smax" in Wheres(filters, year)
        && key + "max" in Vals(sid, filters, year)
      ensures filters[i].request.min.Some? && LastMinOn(filters, year, i) ==>
        var key, vals := Column(filters[i].def, year), Vals(sid, filters, year);
        && key + "min" in vals && vals[key + "min"] == Num(filters[i].request.min.value)
        && key + "options" in vals && vals[key + "options"] == OptionsParam(filters[i].request.options)
      ensures filters[i].request.max.Some? && LastMaxOn(filters, year, i) ==>
        var key, vals := Column(filters[i].def, year), Vals(sid, filters, year);
        key + "max" in vals && vals[key + "max"] == Num(filters[i].request.max.value)
    {
      FilterContributionAt(sid, filters, year, i);
      FilterValuesAt(sid, filters, year, i);
    }
  }

  /** Every predicate after the scenario predicate is one that some filter writes. */
  lemma {:induction false} WheresOnlyFromFilters(filters: seq<BoundFilter>, year: Option<int>)
    ensures forall w :: 1 <= w < |Wheres(filters, year)| ==>
      exists i :: 0 <= i < |filters| && Wheres(filters, year)[w] in FilterPredicates(Column(filters[i].def, year), filters[i].request)
    decreases |filters|
  {
    if filters != [] {
      var n := |filters| - 1;
      var prefix := filters[..n];
      WheresOnlyFromFilters(prefix, year);
      var before, added := Wheres(prefix, year), FilterPredicates(Column(filters[n].def, year), filters[n].request);
      var all := Wheres(filters, year);
      assert all == before + added;
      forall w | 1 <= w < |all|
        ensures exists i :: 0 <= i < |filters| && all[w] in FilterPredicates(Column(filters[i].def, year), filters[i].request)
      {
        if w < |before| {
          var i :| 0 <= i < |prefix| && before[w] in FilterPredicates(Column(prefix[i].def, year), prefix[i].request);
          assert prefix[i] == filters[i];
          assert all[w] == before[w];
          assert all[w] in FilterPredicates(Column(filters[i].def, year), filters[i].request);
        } else {
          assert all[w] == added[w - |before|];
          assert all[w] in FilterPredicates(Column(filters[n].def, year), filters[n].request);
        }
      }
    } else {
      assert Wheres(filters, year) == [ScenarioPredicate];
    }
  }

  /** Ends in the last letter of `min`, `max` or `options`. */
  predicate EndsLikeFilterParam(name: string)
  {
    |name| > 0 && (name[|name| - 1] == 'n' || name[|name| - 1] == 'x' || name[|name| - 1] == 's')
  }

  /** A name that does not end like `min`, `max` or `options` is bound by no filter. */
  lemma NotAFilterName(key: string, f: FilterRequest, name: string)
    requires !EndsLikeFilterParam(name)
    ensures name !in NamesBound(key, f)
  {
    assert (key + "min")[|key| + 2] == 'n' && (key + "max")[|key| + 2] == 'x' && (key + "options")[|key| + 6] == 's';
  }

  /**
   * Only the scenario id and names some filter binds are ever bound: every
   * other name is `<column>min`, `<column>options` of a filter with a min, or
   * `<column>max` of a filter with a max.
   */
  lemma {:induction false} ValsKeys(sid: string, filters: seq<BoundFilter>, year: Option<int>)
    ensures forall k :: k in Vals(sid, filters, year) ==>
      k == "scenarioId" || exists i :: 0 <= i < |filters| && k in NamesBound(Column(filters[i].def, year), filters[i].request)
    ensures "scenarioId" in Vals(sid, filters, year) && Vals(sid, filters, year)["scenarioId"] == Str(sid)
    decreases |filters|
  {
    if filters != [] {
      var n := |filters| - 1;
      var prefix := filters[..n];
      ValsKeys(sid, prefix, year);
      forall k | k in Vals(sid, filters, year)
        ensures k == "scenarioId" || exists i :: 0 <= i < |filters| && k in NamesBound(Column(filters[i].def, year), filters[i].request)
      {
        if k !in NamesBound(Column(filters[n].def, year), filters[n].request) && k != "scenarioId" {
          var i :| 0 <= i < |prefix| && k in NamesBound(Column(prefix[i].def, year), prefix[i].request);
          assert prefix[i] == filters[i];
        }
      }
    }
  }

  // ---------------------------------------------------------------------------
  // The predicate text as written

  /** A named parameter placeholder, `%(name)s`. */
  function Placeholder(name: string): string
  {
    "%(" + name + ")s"
  }

  /**
   * The first predicate names the parameter `scenaroiId`, which `vals` never
   * binds (it binds `scenarioId`), whatever the filters.
   */
  lemma ScenarioPlaceholderUnbound(sid: string, filters: seq<BoundFilter>, year: Option<int>)
    ensures Wheres(filters, year)[0] == "scenarioId = " + Placeholder("scenaroiId")
    ensures "scenaroiId" !in Vals(sid, filters, year)
  {
    ValsKeys(sid, filters, year);
    assert "scenaroiId"[6] != "scenarioId"[6];
    forall i | 0 <= i < |filters|
      ensures "scenaroiId" !in NamesBound(Column(filters[i].def, year), filters[i].request)
    {
      NotAFilterName(Column(filters[i].def, year), filters[i].request, "scenaroiId");
    }
  }

  /**
   * Every filter predicate names the parameter `key` followed by literal text
   * (`%(key)smin`), and `key` is never bound.
   */
  lemma KeyPlaceholderUnbound(sid: string, filters: seq<BoundFilter>, year: Option<int>)
    ensures forall i :: 0 <= i < |filters| && filters[i].request.min.Some? ==>
      Column(filters[i].def, year) + " >= " + Placeholder("key") + "min" in Wheres(filters, year)
    ensures "key" !in Vals(sid, filters, year)
  {
    ValsKeys(sid, filters, year);
    forall i | 0 <= i < |filters|
      ensures "key" !in NamesBound(Column(filters[i].def, year), filters[i].request)
    {
      NotAFilterName(Column(filters[i].def, year), filters[i].request, "key");
    }
    forall i | 0 <= i < |filters| && filters[i].request.min.Some?
      ensures Column(filters[i].def, year) + " >= " + Placeholder("key") + "min" in Wheres(filters, year)
    {
      FilterContributionAt(sid, filters, year, i);
      KeyPlaceholderText(Column(filters[i].def, year));
    }
  }

  /** The min predicate of column `key` spelled with its placeholder. */
  lemma KeyPlaceholderText(key: string)
    ensures key + " >= " + Placeholder("key") + "min" == key + " >= %(key)smin"
  {
    var tail := " >= " + Placeholder("key") + "min";
    assert tail == " >= %(key)smin";
    assert key + " >= " + Placeholder("key") + "min" == key + tail;
  }

  /** One filter with a min on a plain column, as the loop renders it. */
  lemma WrittenPredicatesExample(sid: string)
    ensures var filters := [BoundFilter(FilterDef("Pop", false), FilterRequest("Pop", Some(1.0), None, None))];
      && Wheres(filters, None) == ["scenarioId = %(scenaroiId)s", "Pop >= %(key)smin", "Pop in %(key)soptions"]
      && Vals(sid, filters, None) == map["scenarioId" := Str(sid), "Popmin" := Num(1.0), "Popoptions" := NoneParam]
  {
    var f := FilterRequest("Pop", Some(1.0), None, None);
    var filters := [BoundFilter(FilterDef("Pop", false), f)];
    assert filters[..0] == [] && filters[..1] == filters;
    assert Column(filters[0].def, None) == "Pop";
    WrittenWheresExample(filters, f);
    WrittenValsExample(sid, filters, f);
  }

  lemma WrittenWheresExample(filters: seq<BoundFilter>, f: FilterRequest)
    requires f == FilterRequest("Pop", Some(1.0), None, None) && filters == [BoundFilter(FilterDef("Pop", false), f)]
    requires filters[..0] == [] && filters[..1] == filters && Column(filters[0].def, None) == "Pop"
    ensures Wheres(filters, None) == ["scenarioId = %(scenaroiId)s", "Pop >= %(key)smin", "Pop in %(key)soptions"]
  {
    WheresStep(filters, None, 0);
    MinOnlyPredicates("Pop", f);
    PopPredicateText();
  }

  lemma MinOnlyPredicates(key: string, f: FilterRequest)
    requires f.min.Some? && f.max.None?
    ensures FilterPredicates(key, f) == [key + " >= %(key)smin", key + " in %(key)soptions"]
  {
  }

  lemma PopPredicateText()
    ensures "Pop" + " >= %(key)smin" == "Pop >= %(key)smin"
    ensures "Pop" + " in %(key)soptions" == "Pop in %(key)soptions"
  {
  }

  lemma WrittenValsExample(sid: string, filters: seq<BoundFilter>, f: FilterRequest)
    requires f == FilterRequest("Pop", Some(1.0), None, None) && filters == [BoundFilter(FilterDef("Pop", false), f)]
    requires filters[..0] == [] && filters[..1] == filters && Column(filters[0].def, None) == "Pop"
    ensures Vals(sid, filters, None) == map["scenarioId" := Str(sid), "Popmin" := Num(1.0), "Popoptions" := NoneParam]
  {
    ValsStep(sid, filters, None, 0);
    assert "Pop" + "min" == "Popmin" && "Pop" + "options" == "Popoptions";
  }

  /** Filters with neither min nor max add nothing, even when they carry options. */
  lemma {:induction false} NoBoundsNoPredicates(sid: string, filters: seq<BoundFilter>, year: Option<int>)
    requires forall i :: 0 <= i < |filters| ==> filters[i].request.min.None? && filters[i].request.max.None?
    ensures Wheres(filters, year) == [ScenarioPredicate]
    ensures Vals(sid, filters, year) == map["scenarioId" := Str(sid)]
    decreases |filters|
  {
    if filters != [] {
      NoBoundsNoPredicates(sid, filters[..|filters| - 1], year);
    }
  }

  /** An options-only filter passes the value check, yet the loop drops it. */
  lemma OptionsOnlyFilterDropped(sid: string)
    ensures var f := FilterRequest("Country", None, None, Some(["Kenya"]));
      && HasValue(f)
      && Wheres([BoundFilter(FilterDef("Country", false), f)], None) == [ScenarioPredicate]
  {
    var f := FilterRequest("Country", None, None, Some(["Kenya"]));
    NoBoundsNoPredicates(sid, [BoundFilter(FilterDef("Country", false), f)], None);
  }

  // ---------------------------------------------------------------------------
  // The predicates as evidently intended

  /** A predicate `<column> <op> %(<param>)s`. */
  datatype Condition = Condition(column: string, op: string, param: string)

  function Render(c: Condition): string
  {
    c.column + " " + c.op + " " + Placeholder(c.param)
  }

  /** One filter's conditions with each placeholder naming its own parameter and `in` guarded by the options. */
  function IntendedConditions(key: string, f: FilterRequest): seq<Condition>
  {
    (if f.min.Some? then [Condition(key, ">=", key + "min")] else [])
    + (if f.max.Some? then [Condition(key, "<=", key + "max")] else [])
    + (if f.options.Some? then [Condition(key, "in", key + "options")] else [])
  }

  function IntendedParams(vals: map<string, Param>, key: string, f: FilterRequest): (r: map<string, Param>)
    ensures r.Keys == vals.Keys
      + (if f.min.Some? then {key + "min"} else {})
      + (if f.max.Some? then {key + "max"} else {})
      + (if f.options.Some? then {key + "options"} else {})
  {
    var withMin := if f.min.Some? then vals[key + "min" := Num(f.min.value)] else vals;
    var withMax := if f.max.Some? then withMin[key + "max" := Num(f.max.value)] else withMin;
    if f.options.Some? then withMax[key + "options" := StrList(f.options.value)] else withMax
  }

  function Conditions(filters: seq<BoundFilter>, year: Option<int>): (conds: seq<Condition>)
    ensures |conds| >= 1 && conds[0] == Condition("scenarioId", "=", "scenarioId")
    decreases |filters|
  {
    if filters == [] then [Condition("scenarioId", "=", "scenarioId")]
    else
      var f := filters[|filters| - 1];
      Conditions(filters[..|filters| - 1], year) + IntendedConditions(Column(f.def, year), f.request)
  }

  function Bindings(sid: string, filters: seq<BoundFilter>, year: Option<int>): map<string, Param>
    decreases |filters|
  {
    if filters == [] then map["scenarioId" := Str(sid)]
    else
      var f := filters[|filters| - 1];
      IntendedParams(Bindings(sid, filters[..|filters| - 1], year), Column(f.def, year), f.request)
  }

  /** The intended WHERE predicates, as text. */
  function IntendedWheres(filters: seq<BoundFilter>, year: Option<int>): seq<string>
  {
    Expander.Reshape(Conditions(filters, year), Render)
  }

  /** Every placeholder of the intended predicates names a bound parameter, starting with `scenarioId`. */
  lemma {:induction false} IntendedParamsBound(sid: string, filters: seq<BoundFilter>, year: Option<int>)
    ensures forall c :: c in Conditions(filters, year) ==> c.param in Bindings(sid, filters, year)
    ensures IntendedWheres(filters, year)[0] == "scenarioId = " + Placeholder("scenarioId")
    decreases |filters|
  {
    if filters != [] {
      var n := |filters| - 1;
      var prefix := filters[..n];
      IntendedParamsBound(sid, prefix, year);
      var key, f := Column(filters[n].def, year), filters[n].request;
      var before, added := Conditions(prefix, year), IntendedConditions(key, f);
      assert Conditions(filters, year) == before + added;
      assert Bindings(sid, filters, year) == IntendedParams(Bindings(sid, prefix, year), key, f);
      forall c | c in Conditions(filters, year) ensures c.param in Bindings(sid, filters, year) {
        if c !in before {
          assert c in added;
        }
      }
    }
    ScenarioConditionText();
  }

  /** The scenario condition renders with a placeholder for `scenarioId`. */
  lemma ScenarioConditionText()
    ensures Render(Condition("scenarioId", "=", "scenarioId")) == "scenarioId = " + Placeholder("scenarioId")
  {
  }

  /** Every filter that carries options gets an `in` condition on its column, bound to its own parameter. */
  lemma {:induction false} IntendedOptionsApplied(sid: string, filters: seq<BoundFilter>, year: Option<int>)
    ensures forall i :: 0 <= i < |filters| && filters[i].request.options.Some? ==>
      var key := Column(filters[i].def, year);
      Condition(key, "in", key + "options") in Conditions(filters, year)
    decreases |filters|
  {
    if filters != [] {
      var prefix := filters[..|filters| - 1];
      IntendedOptionsApplied(sid, prefix, year);
      forall i | 0 <= i < |filters| && filters[i].request.options.Some?
        ensures var key := Column(filters[i].def, year);
          Condition(key, "in", key + "options") in Conditions(filters, year)
      {
        if i < |prefix| {
          assert filters[i] == prefix[i];
        }
      }
    }
  }
}
