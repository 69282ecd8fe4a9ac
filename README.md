# GEP data service: sparse expander and scenario query helpers

This project models the algorithmic core of the Global Electrification
Platform's read-only analytics API (`api/expander.py` and the pure parts of
`api/main.py`) in Dafny and proves properties of that model.

- **Expander** (`expander.dfy`). `expand` turns a sparse vector of `(index, value)` pairs into a dense sequence. It keeps `last_index`, which starts at -1. Before each value it emits `default` once per skipped index. `Expand` is a method with the source's two loops, proved equal to the recursive specification `Expanded`. The lemmas then give the output's length for any input and show where the values land. They also show that every other slot holds the default, that input already dense comes out unchanged, and that the docstring example holds. `reshape` is `Reshape`.
- **Api** (`api.dfy`). This module holds the model id of a scenario id, which is the text after the last `-` (`api/main.py:39`), so `"abc-countryx-1"` gives `"1"`. It also holds the column-name and aggregate builders `yearField`, `yearFieldAs` and `_sum`, and the target-year choice and validation of the `scenario` and `feature` endpoints, `includedSteps`, and the cumulative `investmentCostSelector`. The per-feature `featureTypes` array is the expander applied to the `(id, tech)` rows.
- **Filters** (`filters.dfy`). The check that every filter has a truthy `min`, `max` or `options` is the method `CheckFilters`. The loop that accumulates the WHERE predicates `wheres` and the parameter map `vals` is the method `BuildPredicates`, with its text exactly as written. A corrected builder (`Conditions`, `Bindings`, `IntendedWheres`) states what that text evidently means to do (see Findings).
- **Text** (`text.dfy`) supplies Python's `str()` of an int (with its inverse), `str.split`/`str.join` on one character (with both round trips), and ASCII lower-casing. **Wrappers** (`wrappers.dfy`) supplies `Option` for `None` and `Result` for raised errors.

Python's truthiness is explicit. A year is `Option<int>`, and `None` and `0` are falsy (`Api.Truthy`). An alias is `Option<string>`, and `None` and `""` are falsy (`Api.Given`). `0.0` and `[]` are falsy in a filter (`Filters.HasValue`).

What the code does not do:
- `expand` has no `max_index` argument. It emits no trailing padding, and nothing joins `featureTypes` with commas.
- The code has none of these: rounding to two decimals, exclusion of category 99, carry-forward of per-category investment, decoding of legacy query-string filters, or double JSON decoding.

## Model

| member | source | states |
|---|---|---|
| `Expander.Reshape` | api/expander.py:3-5 | one element per input element, in order, each the shape function applied to its input |
| `Expander.Expand` | api/expander.py:17-22 | the outer loop over the pairs with `last_index` and the inner padding loop yield exactly `Expanded(pairs, default)` |
| `Expander.ExpandedLength` | api/expander.py:19-22 | for any input, output length = number of pairs + the sum of each pair's padding `max(0, index - last_index - 1)`, so a repeated or decreasing index pads nothing |
| `Expander.ExpandedValuesInOrder` | api/expander.py:18-22 | for any input, the value positions strictly increase, hold the input values in input order, every other position holds `default`, and the output ends with the last value |
| `Expander.SparseLength` | api/expander.py:17-22 | indices ≥ 0 and strictly increasing: length is last index + 1, and empty input gives empty output |
| `Expander.SparsePlacement` | api/expander.py:18-22 | indices ≥ 0 and strictly increasing: output position `index_i` exists and holds `value_i` |
| `Expander.SparsePadding` | api/expander.py:19-20 | indices ≥ 0 and strictly increasing: every position no pair names holds `default` |
| `Expander.ExpandedDense` | api/expander.py:19-22 | indices exactly 0..n-1: the output is the values unchanged, with no padding |
| `Expander.DocExample` | api/expander.py:14-15 | `(1,3),(3,4)` with default `None` gives `None, 3, None, 4` |
| `Api.ScenarioIdToModelId` | api/main.py:38-39 | the result is a dash-free suffix of the id, the whole id or preceded by `-`, and it is the id itself when the id has no `-` |
| `Api.ModelIdAfterLastDash` | api/main.py:38-39 | whatever precedes the last `-`, the model id is the dash-free text after it |
| `Api.ModelIdOfThreePartScenario` | api/main.py:39 | `"abc-countryx-1"` maps to `"1"`, the text after its last `-` |
| `Api.YearField` | api/main.py:41-44 | a falsy year leaves the field unchanged; a truthy year appends `str(year)`: canonical decimal text (no leading zero, `-` only before a non-zero digit) that reads back as that year |
| `Text.CanonicalIntTextUnique` | api/main.py:43 | two canonical decimal texts that read back as the same integer are equal, so the text `%s` gives a year is fixed by the year |
| `Api.YearFieldInjective` | api/main.py:41-44 | two truthy years give one field two different column names |
| `Api.YearFieldAs` | api/main.py:46-50 | falsy year: the bare field; truthy year: `<yearField> as <alias>`, the alias being `as_name` when given, else the field with its first character lowercased, which fails for an empty field |
| `Api.Sum` | api/main.py:52-55 | the result starts with `sum(<f>)` and continues with ` as <name>` exactly when a name is given |
| `Api.SelectYear` | api/main.py:223-228 | empty timesteps leave the year unchanged with no error; otherwise a falsy year becomes `timesteps[0]` for the scenario endpoint (`timesteps[-1]` for the feature endpoint, lines 180-186), an accepted year is a timestep, and a truthy year outside the timesteps is `InvalidYear` |
| `Api.IncludedSteps` | api/main.py:230 | each timestep ≤ year kept as often as it occurs, nothing else (multiset and membership) |
| `Api.IncludedStepsInOrder` | api/main.py:230 | the included steps are a subsequence of the timesteps (order kept) |
| `Api.IncludedStepsOfAscending` | api/main.py:230 | with ascending timesteps the included steps are a prefix of them |
| `Api.ValidatedYearIncluded` | api/main.py:223-230 | once the year is validated against non-empty timesteps, it is among its included steps |
| `Api.InvestmentCostSelector` | api/main.py:231-233 | splitting the selector on `+` gives exactly one `(InvestmentCost<y> * ElecStatusIn<y>)` term per included step, in order; empty when no step is included |
| `Api.FeatureTypesIndexed` | api/main.py:340-343 | for rows with ascending non-negative ids, `featureTypes` has length max id + 1, holds each row's code at its id and `''` at every other id |
| `Filters.CheckFilters` | api/main.py:209-214 | `None` or `[]` becomes `[]`; otherwise the filters pass unchanged exactly when each has a truthy min, max or options (so `min=0.0` alone or `options=[]` fails), and fail with `FilterWithoutValue` otherwise |
| `Filters.BuildPredicates` | api/main.py:237-251 | the loop's `wheres` and `vals` are exactly `Wheres` and `Vals` of the filters |
| `Filters.Wheres` | api/main.py:237 | the predicate list is never empty and starts with the scenario predicate |
| `Filters.Vals` | api/main.py:238-251 | `vals["scenarioId"]` is the scenario id after any filters |
| `Filters.FilterParams` | api/main.py:244-251 | one filter binds exactly `<col>min` and `<col>options` (with a min) and `<col>max` (with a max), to its own min, options and max, and leaves every other name as it was |
| `Filters.WheresAppendOnly` | api/main.py:239-251 | the predicates after any prefix of the filters stay the start of the final list: entries are only appended |
| `Filters.ValsKeysGrow` | api/main.py:245-251 | parameter names bound after a prefix of the filters stay bound |
| `Filters.FilterContributions` | api/main.py:243-251 | a min adds `<col> >= …` and `<col>min`, a max adds `<col> <= …` and `<col>max`, and a min (not the options) adds `<col> in …` and `<col>options`; when no later filter on the same column has a min (max), the final `vals` holds this filter's min and options (max) |
| `Filters.WheresOnlyFromFilters` | api/main.py:237-250 | every predicate after the first is a `>=`, `<=` or `in` predicate that some filter with a min or max writes |
| `Filters.ValsKeys` | api/main.py:238-251 | `vals["scenarioId"]` stays the scenario id, and every other bound name is `<col>min` or `<col>options` of a filter with a min, or `<col>max` of a filter with a max |
| `Filters.ScenarioPlaceholderUnbound` | api/main.py:237-238 | the first predicate names `scenaroiId`, which `vals` never binds |
| `Filters.KeyPlaceholderUnbound` | api/main.py:243-251 | every min predicate reads `<col> >= %(key)smin`, and `key` is never bound |
| `Filters.WrittenPredicatesExample` | api/main.py:237-251 | one `Pop` filter with `min=1.0` yields exactly the three predicates and three parameters the code writes |
| `Filters.NoBoundsNoPredicates` | api/main.py:243-251 | filters with neither min nor max add no predicate and no parameter, whatever their options |
| `Filters.OptionsOnlyFilterDropped` | api/main.py:249-251 | an options-only filter passes the value check yet adds no predicate |
| `Filters.IntendedParamsBound` | api/main.py:237-251 | corrected builder: every condition's placeholder names a bound parameter, starting with `scenarioId = %(scenarioId)s` |
| `Filters.IntendedOptionsApplied` | api/main.py:249-251 | corrected builder: every filter with options gets an `in` condition on its column |

## Left out

- ClickHouse access is not modelled. This covers `connection`, every `client.execute`, the model lookup in `model_fromScenario` (which also returns nothing) and the `stats`, `countries`, `country`, `model` and `feature` queries. They are calls into a database outside this code.
- The FastAPI app, CORS middleware, routes and `FilterModel` validation are not modelled. They are framework plumbing.
- Loading `rise-indicators.json` into `riseScores` is not modelled. It is file I/O.
- The `summary` query and the `summaryByType.update(...)` merges are not modelled. They depend only on database rows.
- `intermediateYear`/`finalYear` (`timesteps.get(0, None)`, lines 220-221) are not modelled. They feed only those queries, and a list has no `get`.
- The error-message text of `InvalidYear` is not modelled: `", ".join` over integer timesteps would itself raise.
- `sid.lower()` (lines 60, 176, 205) is not modelled. It is Unicode case mapping of the request id.
- Resolving a filter's key against the model's filter dictionary (lines 240-242) is not modelled. The code reads `filters_dict` where `filter_dict` is built, subscripts a pydantic object and uses an unbound `key`. Each filter therefore comes paired with its definition (`Filters.BoundFilter`), and the column comes from that definition.
- Expander.Expand: returns the whole sequence, because `expand` and `reshape` are lazy generators and only their yielded contents are modelled.
- Filters.BuildPredicates: filter bounds are reals, because pydantic floats and their rounding are not modelled.
- Api.DefaultAlias: lowercases only ASCII `A`-`Z`, because Python's `str.lower` maps every cased Unicode letter.
- Api.YearFieldAs: the lowered alias is ASCII-only, as for `Api.DefaultAlias`.
- Api.FeatureTypes: `tech` is taken as text, because the code passes the database value through unconverted and the database column type is not part of this code.
- The corrected predicate builder is not fed into any query, since the queries themselves are left out.
- `tests/test.py` is not modelled. It compares live HTTP responses with stored ones.

## Findings

| source | as written | input that shows it | evidently intended | confidence | as-written member | corrected member |
|---|---|---|---|---|---|---|
| api/main.py:237-238 | the first predicate's placeholder is `%(scenaroiId)s`, but `vals` binds `scenarioId` | any request, e.g. no filters | `scenarioId = %(scenarioId)s` | high, not executed | `Filters.ScenarioPlaceholderUnbound` | `Filters.IntendedParamsBound` |
| api/main.py:244-250 | filter predicates use the literal placeholder `%(key)smin` (also `max`, `options`), naming a parameter `key` that is never bound | one filter on `Pop` with `min=1.0` gives `Pop >= %(key)smin` | `Pop >= %(Popmin)s`, naming the parameter the loop binds | high, not executed | `Filters.KeyPlaceholderUnbound` | `Filters.IntendedParamsBound` |
| api/main.py:249 | the `in` predicate and `<key>options` are guarded by `f.min is not None` | a filter with only `options=["Kenya"]` passes the value check and adds nothing; a filter with `min` but no options binds `None` | guard on `f.options is not None` | high, not executed | `Filters.OptionsOnlyFilterDropped` | `Filters.IntendedOptionsApplied` |
