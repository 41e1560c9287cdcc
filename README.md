# dplaapi `/v2/items` query compilation, modelled in Dafny

This project models the part of dplaapi that turns the query string of a
`/v2/items` request into an Elasticsearch request body. It has three parts.

- **The parameter validator** (`ItemsQueryType`, module `Types`). It takes
  the flat string-to-string parameter bag and returns either a validated
  mapping (`Spec`) or the first violated constraint (`ValidationError`).
  It applies the defaults (page 1, page size 10, order `asc`), clamps a page
  size above 500 down to 500, and enforces the result window
  `page * page_size <= 50000` on the clamped page size. It rejects unknown
  names, a too-short `q`, a `rights` value that is not URL-shaped, bad
  numbers, and a distance sort without a pin.
- **The term-match compiler** (`SearchQuery` and its helpers, module
  `SearchQuery`). It takes a validated mapping and builds the request body:
  - `query` is `match_all`, or a `bool`/`must` list with one `query_string`
    clause for `q` and one per record-field constraint;
  - `sort` follows the three-way sort rule;
  - `from`/`size` carry the pagination;
  - `_source` is present when `fields` is given;
  - `aggs` is present when `facets` is given.
- **The LDA cosine-similarity query** (`LDAQuery`, module `LdaQuery`). It
  is a class whose `query` field starts as the skeleton. The constructor
  then writes the query vector, `_source`, `from`, `size` and the optional
  sort into it, step by step.

Shared pieces:
- `Dict`: Python dicts as insertion-ordered association lists. `Put`
  replaces a value in place or appends a new key, as a Python dict does.
- `Json`: the request-body document.
- `Text`: splitting, joining and decimal numbers.
- `Taxonomy`: the field kinds and boosts of the fields the tests name.
- `BaseQuery`: the single-field sort rule both queries share.

The validator and the term-match compiler are known only through their
tests, `tests/test_types.py` and `tests/test_search_query.py`. Every
exact-value assertion in those tests is proved as a lemma about the model,
starting where the test starts: a test that builds its parameters with
`ItemsQueryType` has a lemma that runs the same raw bag through `Validate`
and then `Compile`, and a test that calls a helper directly has a lemma
about that helper. The general properties behind those assertions are
proved for all inputs.

## Model

| member | source | states |
|---|---|---|
| Types.Validate | tests/test_types.py:9-85 | a bag is accepted exactly when every entry passes its own check, `page * page_size` (after the clamp) stays within the 50000 window and a coordinates sort has a pin; otherwise the error is the first failing entry's, else the window error, else the missing-pin error; every accepted mapping is well formed: distinct keys, page at least 1, page size in 1..500, within the window, pinned when sorting by distance |
| Types.CrossCheck | tests/test_types.py:68-85 | once every entry passed its own check, the result is Ok exactly when the window holds and a distance sort has its pin; a page past the window is rejected on `page`, a missing pin on `sort_by_pin`; whatever is accepted is well formed |
| Types.FirstError | tests/test_types.py:20-44 | there is no error exactly when every entry passes its own check; an error is the check result of the first failing entry, every entry before it passes, and it names a parameter of the bag |
| Types.ValidatePageExample | tests/test_search_query.py:140-142 | `page=2&page_size=2` validates to page 2 of size 2 |
| Types.ValidateSortByExamples | tests/test_search_query.py:155-173 | `sort_by` on `sourceResource.type` or `sourceResource.title` is accepted and kept |
| Types.ValidateGeoSortExample | tests/test_search_query.py:176-191 | `sort_by` on the coordinates with pin `26.15952,-97.99084` is accepted and both are kept |
| Types.PinOf | tests/test_types.py:81-85 | two non-empty parts without a comma, joined by one comma, form a valid pin |
| Types.Untyped | tests/test_types.py:14-17 | the string entries are kept with their values, the typed ones (`page`, `page_size`, `sort_order`) are dropped, and no key is added |
| Types.SortOrderChecked | tests/test_types.py:75-78 | a `sort_order` that passed its check is `asc` or `desc` |
| Types.NumberChecked | tests/test_types.py:68-72 | a `page` or `page_size` that passed its check is a number of at least 1 |
| Types.ValidateDefaults | tests/test_types.py:47-56 | an absent `page`, `page_size` or `sort_order` becomes 1, 10 or `asc` |
| Types.ValidateNoParams | tests/test_types.py:47-56 | the empty bag validates to page 1, page size 10, order `asc` and no strings |
| Types.ValidateClampsPageSize | tests/test_types.py:59-65 | any page size above 500 is accepted and becomes 500 |
| Types.ValidatePageSize501 | tests/test_types.py:59-65 | `page_size=501` validates to page size 500 |
| Types.ValidateWindowEdge | tests/test_types.py:68-72 | page 100 of 500 is accepted and page 101 of 500 is rejected as past the window |
| Types.ValidateWindowAfterClamp | tests/test_types.py:59-72 | the window is checked on the clamped size: page 100 with a requested size of 1000 is accepted as page 100 of 500 |
| Types.ValidateRejectsBadEntry | tests/test_types.py:20-44 | any entry that fails its own check makes validation fail, wherever it sits |
| Types.ValidateRejectsUnknownName | tests/test_types.py:41-44 | a name that is neither a control parameter nor a known record field is rejected |
| Types.ValidateRejectionExamples | tests/test_types.py:20-44 | the three test inputs give an unknown-parameter, too-short and not-a-URL error, each naming the offending parameter |
| Types.ValidateAcceptanceExamples | tests/test_types.py:34-38 | `q=xx` and the rightsstatements.org URL are accepted and kept, with the defaults added |
| Types.ValidateRejectsUnpinnedGeoSort | tests/test_types.py:81-85 | sorting by `sourceResource.spatial.coordinates` without `sort_by_pin` is rejected, whatever else is given |
| Types.ValidateKeepsParams | tests/test_types.py:14-17 | an accepted mapping holds every supplied string parameter with its value |
| Types.ValidateKeepsNumbers | tests/test_types.py:59-72 | a supplied page is kept as given, and a supplied page size is kept after the clamp |
| Types.ValidateKeepsSortOrder | tests/test_types.py:75-78 | a supplied sort order is kept |
| BaseQuery.SingleFieldSort | tests/test_search_query.py:155-173 | two entries, relevance second; the first has one key, in the requested direction, that is never an analysed text field: the field itself when it is not text, its `.not_analyzed` sibling when it is |
| BaseQuery.SortFieldIsExact | tests/test_search_query.py:165-173 | the sort never names an analysed text field; other fields are sorted on as given |
| BaseQuery.SingleFieldSortExamples | tests/test_search_query.py:155-173 | the two single-field sorts the tests expect, the text field one on `.not_analyzed` |
| SearchQuery.QFieldsClause | tests/test_search_query.py:87-89 | at most one field string per table entry |
| SearchQuery.QFieldsClauseAppend | tests/test_search_query.py:79-89 | the clause of a concatenation is the concatenation of the clauses, so table order is kept |
| SearchQuery.QFieldsClauseMembers | tests/test_search_query.py:79-89 | the clause holds `name^boost` for exactly the entries that have a boost |
| SearchQuery.QFieldsClauseExample | tests/test_search_query.py:87-89 | `{a:1, b:None, c:2}` gives `[a^1, c^2]` |
| SearchQuery.QueryStringFields | tests/test_search_query.py:26-52 | the `q` clause searches the 18 boosted fields, title at 2 and description at 0.75 |
| SearchQuery.SingleFieldFieldsClause | tests/test_search_query.py:92-108 | one field string: outside exact match on a text field, `field^boost` with a boost and `field` without; under exact match a text field becomes `field.not_analyzed` with no boost, while any other field (a keyword field, say) keeps its boost |
| SearchQuery.SingleFieldFieldsClauseExamples | tests/test_search_query.py:92-108 | `[field^1]` with a boost, `[field]` without, `[dataProvider.not_analyzed]` under exact match |
| SearchQuery.SingleFieldExactDropsBoost | tests/test_search_query.py:102-108 | under exact match a text field becomes its `.not_analyzed` sibling with no boost |
| SearchQuery.FieldsAndConstraints | tests/test_search_query.py:111-124 | the two parts together are as long as the input |
| SearchQuery.FieldsAndConstraintsPartition | tests/test_search_query.py:111-124 | the first part holds exactly the record-field entries and the second exactly the control entries, and lookups in either agree with the input |
| SearchQuery.FieldsAndConstraintsExample | tests/test_search_query.py:111-124 | the test's bag splits into its two record fields and `fields` |
| SearchQuery.FieldClauses | tests/test_search_query.py:71-76 | one clause per record-field constraint |
| SearchQuery.FieldClausesCover | tests/test_search_query.py:71-76 | every record-field constraint has its `query_string` clause among them |
| SearchQuery.NoRecordFields | tests/test_search_query.py:10-15 | there are no record-field constraints exactly when every parameter is a control parameter |
| SearchQuery.MatchClause | tests/test_search_query.py:10-23 | `match_all` without search terms, else a `bool` clause whose `must` lists the `q` clause and one clause per record field; pinned by MatchClauseShape and MatchClauseMust |
| SearchQuery.MatchAllIffNoTerms | tests/test_search_query.py:10-23 | the query is `match_all` exactly when there is neither `q` nor a record-field constraint; otherwise its only key is `bool` |
| SearchQuery.MatchClauseShape | tests/test_search_query.py:10-23 | the match clause is `match_all` exactly when both inputs are empty; otherwise only `bool` |
| SearchQuery.MatchClauseMust | tests/test_search_query.py:26-52 | `bool.must` is the `q` clause, when there is one, followed by the field clauses |
| SearchQuery.SearchTermsFirst | tests/test_search_query.py:26-52 | with `q`, `must[0]` is the `query_string` on `q` over the boosted fields, and one clause follows per record field |
| SearchQuery.FieldConstraintSearched | tests/test_search_query.py:71-76 | every record-field constraint of the mapping is searched in `bool.must` |
| SearchQuery.SortClause | tests/test_search_query.py:145-191 | the three-way sort rule; one or two entries, and which of the three by SortOfCases and SortKeepsRelevance |
| SearchQuery.SortOfCases | tests/test_search_query.py:145-191 | the three sort cases: the default sort, the single-field sort, and the lone `_geo_distance` sort from the pin |
| SearchQuery.SortKeepsRelevance | tests/test_search_query.py:155-191 | the relevance tiebreak is present exactly when the sort is not by distance |
| SearchQuery.SortFieldExact | tests/test_search_query.py:165-173 | the first sort key is the field, or its exact sibling for text, in the requested order, and never an analysed field |
| SearchQuery.GeoDistanceSortExample | tests/test_search_query.py:176-191 | the distance sort of the test: pin, `asc` and unit `mi` |
| SearchQuery.CleanFacetName | tests/test_search_query.py:194-196 | the clean name is the part of the facet name before its first `:`: a prefix without `:`, followed in the name by `:` or by nothing, and the whole name when it has no `:` |
| Text.BeforeIsFirstPart | tests/test_search_query.py:194-196 | the text before the first separator is a prefix of the input without the separator, ends at the separator or at the end, and is the whole input when there is no separator |
| SearchQuery.CleanFacetNameExample | tests/test_search_query.py:194-196 | `x:y:z` is cleaned to `x` |
| SearchQuery.GeoRangesShape | tests/test_search_query.py:242-255 | 22 buckets: `{100k, 100k+99}` for k = 0..20, then `{from: 2100}` |
| SearchQuery.GeoRangesPartition | tests/test_search_query.py:242-255 | every whole distance lies in exactly one bucket, so the buckets leave no gap and never overlap |
| SearchQuery.FacetsFor | tests/test_search_query.py:217-269 | a facet is built exactly when its clean name is a known field and, for the geo field, the name has the `field:lat:lon` form; a failure names `facets`; each kind's aggregation by FacetsForPlain and FacetsForGeo |
| SearchQuery.FacetsForPlain | tests/test_search_query.py:217-239 | a facet without `:` is by field kind: `terms` on the field, `terms` on `.not_analyzed`, the yearly `date_histogram`, or an error for an unknown field or a bare geo field |
| SearchQuery.FacetsForKeywordExample | tests/test_search_query.py:217-221 | `hasView.@id` gives `terms` on itself |
| SearchQuery.FacetsForTextExample | tests/test_search_query.py:224-228 | `intermediateProvider` gives `terms` on its `.not_analyzed` sibling |
| SearchQuery.FacetsForDateExample | tests/test_search_query.py:231-239 | the date facet is the yearly histogram with `min_doc_count` 2, newest first |
| SearchQuery.FacetsForGeo | tests/test_search_query.py:242-264 | `coordinates:lat:lon` gives `geo_distance` from origin `lat,lon` in miles over the 22 buckets |
| SearchQuery.FacetsForGeoExample | tests/test_search_query.py:242-264 | the geo facet of the test |
| SearchQuery.FacetsForUnknownExample | tests/test_search_query.py:267-269 | an unknown facet name is a validation error |
| SearchQuery.Aggregations | tests/test_search_query.py:207-214 | the dict comprehension keeps every key it started with and adds at most one entry per name; success, keys, values and the error by AggregationsOk, AggregationsKeys, AggregationsValues and AggregationsErr |
| SearchQuery.AggregationsOk | tests/test_search_query.py:207-214 | building the aggregations succeeds exactly when every name's facet does |
| SearchQuery.AggregationsKeys | tests/test_search_query.py:207-214 | the aggregation keys are the cleaned names, each once |
| SearchQuery.AggregationsValues | tests/test_search_query.py:207-214 | each cleaned name maps to the facet of its last occurrence, and nothing else is touched |
| SearchQuery.AggregationsErr | tests/test_search_query.py:207-214 | a failure is the error of the first failing name, after names that all succeeded |
| SearchQuery.FacetsClause | tests/test_search_query.py:199-214 | the facets clause is a dict when it succeeds, and a failure is a validation error on `facets` |
| SearchQuery.FacetsClauseShape | tests/test_search_query.py:207-214 | the facets clause splits on `,`: it succeeds exactly when every name's facet does, and then it is a dict keyed by the cleaned names |
| SearchQuery.FacetsClauseStandInExample | tests/test_search_query.py:207-214 | with a facet builder that returns `{}`, `x,y` gives `{x: {}, y: {}}` |
| SearchQuery.Compile | tests/test_search_query.py:10-204 | `SearchQuery(params).query`: a dict when it succeeds; it fails only when `facets` is given, with an error on `facets`; its keys and values by CompileKeys, CompileQueryAndSort, CompilePagination, CompileSource and CompileAggs |
| SearchQuery.CompileErr | tests/test_search_query.py:199-204 | compiling fails exactly when `facets` is given and its clause fails, with that clause's error |
| SearchQuery.CompileKeys | tests/test_search_query.py:127-132 | the body's keys are `query`, `sort`, `from` and `size`, then `_source` when `fields` is given, then `aggs` when `facets` is given |
| SearchQuery.CompileDistinctKeys | tests/test_search_query.py:127-132 | no key of the body appears twice |
| SearchQuery.CompileQueryAndSort | tests/test_search_query.py:145-191 | the body's `query` and `sort` are the match clause and the sort rule |
| SearchQuery.CompilePagination | tests/test_search_query.py:135-142 | `from` is `(page-1)*page_size` and `size` is the page size; `from` is never negative and `from + size` stays within the 50000 window |
| SearchQuery.CompileFromExample | tests/test_search_query.py:140-142 | page 2 of size 2 starts at `from` 2 |
| SearchQuery.CompileDefaultExample | tests/test_search_query.py:145-152 | with no parameters the body is `match_all`, the default sort, `from` 0 and `size` 10, and nothing else |
| SearchQuery.RequestOfNoParams | tests/test_search_query.py:135-152 | with no parameters, validation and compilation give `match_all`, the default sort, `from` 0 and `size` 10 |
| SearchQuery.RequestOfPageExample | tests/test_search_query.py:140-142 | the bag `page=2&page_size=2` validates and compiles to `from` 2 |
| SearchQuery.RequestOfSortByExamples | tests/test_search_query.py:155-173 | the bags `sort_by=sourceResource.type` and `sort_by=sourceResource.title` validate and compile to the field sort (on `.not_analyzed` for the title), then relevance |
| SearchQuery.RequestOfGeoSortExample | tests/test_search_query.py:176-191 | the coordinates sort with its pin validates and compiles to the lone ascending `_geo_distance` sort in miles |
| SearchQuery.SortedRequest | tests/test_search_query.py:145-191 | a mapping without facets compiles, and its `sort` is the sort rule's answer |
| SearchQuery.CompileSource | tests/test_search_query.py:55-68 | `_source` is present exactly when `fields` is given; it is `fields` split at commas, and joining it gives `fields` back |
| SearchQuery.CompileFacets | tests/test_search_query.py:199-204 | with `facets`, `aggs` is the facets clause, keyed by the cleaned names, and every name's facet succeeded |
| SearchQuery.CompileAggs | tests/test_search_query.py:199-204 | with `facets`, a compiled body's `aggs` is the successful facets clause |
| LdaQuery.LdaQuery.constructor | dplaapi/queries/lda_query.py:42-59 | the finished `query` is the reference body `SimilarityQuery`; the vector reads back along the `script_score` path; `_source`, `from`, `size` and `sort` hold what each write put there |
| LdaQuery.LdaQuery.AddSortClause | dplaapi/queries/lda_query.py:58-59 | the sort becomes the single-field sort and every other key keeps its value and place |
| LdaQuery.SetVectorInSkeleton | dplaapi/queries/lda_query.py:11-29 | writing along the skeleton's own `script_score` path succeeds and replaces the vector and nothing else |
| LdaQuery.InitAsWritten | dplaapi/queries/lda_query.py:47-59 | the constructor as written: the line-50 assignment along `query → script → params`, then the same writes as the corrected constructor; InitAsWrittenFails shows it never gets past line 50 |
| LdaQuery.InitAsWrittenFails | dplaapi/queries/lda_query.py:50 | as written, the vector assignment reads a `script` key that the skeleton's `query` lacks, so the assignment fails and every construction fails |
| LdaQuery.SimilarityQuery | dplaapi/queries/lda_query.py:11-59 | the reference body is a dict whose `query` is the `match_all` scored by the cosine script on the given vector; its keys and values are pinned by SimilarityKeys, SimilarityLookups and AssembleSkeleton |
| Json.SetPath | dplaapi/queries/lda_query.py:50 | a chained subscript assignment: when it succeeds the result is a dict; when it succeeds by SetPathDefined, what it writes by SetPathThenGet |
| Json.SetPathDefined | dplaapi/queries/lda_query.py:50 | the assignment succeeds exactly when every dict on the way to the last key exists |
| Json.SetPathThenGet | dplaapi/queries/lda_query.py:50 | after a successful assignment the path reads back the value and the other top-level keys are unchanged |
| LdaQuery.AssembleSkeleton | dplaapi/queries/lda_query.py:52-59 | the writes after the vector's turn the skeleton into the reference body |
| LdaQuery.AddSourceToSkeleton | dplaapi/queries/lda_query.py:52-53 | `_source` is a new key, so it lands after `sort` |
| LdaQuery.AddPageAppends | dplaapi/queries/lda_query.py:55-56 | `from` and `size` are new keys, so they land at the end in that order |
| LdaQuery.AddSortSecond | dplaapi/queries/lda_query.py:58-59 | replacing the sort keeps its position, second after `query` |
| LdaQuery.SimilarityVector | dplaapi/queries/lda_query.py:50 | the stored query vector is the given one |
| LdaQuery.SimilarityScoresEverything | dplaapi/queries/lda_query.py:11-24 | every record is matched (`match_all`) and scored by the fixed cosine-similarity script |
| LdaQuery.SimilarityKeys | dplaapi/queries/lda_query.py:47-59 | the body's keys are `query` and `sort`, then `_source` exactly when `fields` is given, then `from` and `size`; nothing else, and none twice |
| LdaQuery.SimilarityLookups | dplaapi/queries/lda_query.py:52-59 | `sort`, `_source`, `from` and `size` hold the values written, and `_source` is absent without `fields` |
| LdaQuery.SimilaritySource | dplaapi/queries/lda_query.py:52-53 | `_source` is `fields` split at commas and joins back to `fields`; it is absent without `fields` |
| LdaQuery.SimilarityPage | dplaapi/queries/lda_query.py:55-56 | `from` is `(page-1)*page_size` and `size` is the page size; from the first page on, `from` is never negative |
| LdaQuery.SimilaritySort | dplaapi/queries/lda_query.py:58-59 | without `sort_by` the skeleton's default sort stays; with it, the field comes first and relevance second |

## Left out

- The HTTP handler (`dplaapi/handlers/v2.py`) is not part of this model. It posts the body, logs, and maps exceptions to HTTP errors; all of that is transport.
- The apistar exception and type machinery is not modelled. A failed validation is a `ValidationError` value naming the parameter and a reason.
- The `rights` URL pattern and the length bounds of the string fields are not part of this model. `IsUrl` accepts an `http://` or `https://` prefix, and only the minimum of 2 characters for `q` is modelled, because those are all the tests pin.
- The LDA vector's float contents are not modelled. The vector is an opaque `Json` copied through unchanged; there is no cosine arithmetic.
- `query_skel.copy()` is shallow, so the nested writes of a working constructor would alias the module-level skeleton across requests. The model gives each object its own value and does not capture that sharing.
- `dplaapi/queries/base_query.py` is not part of this model. `add_sort_clause` is specified as the single-field sort rule that the term-match tests pin. `LdaQuery.SortOf` therefore gives an LDA query a plain single-field sort (the field, then relevance) even when `sort_by` is the coordinates field; whether the real `add_sort_clause` sorts by distance there is unknown.
- The implementation of `dplaapi/search_query.py` and `dplaapi/types.py` is not part of this model. Their behaviour is taken from the tests. The order of the clauses in `bool.must`, the `query_string` options other than `query` and `fields`, and the validation of a pin's numbers are not pinned by the tests, so they are modelled in the simplest form.
- The field taxonomy covers only the fields the tests name.
- A query string with a repeated key is not modelled. `Validate` requires distinct keys because the validator receives a dict.
- Integers are unbounded. Python's integers are too, so nothing is lost.
- Types.Validate: the window rule is taken as `page * clamped page_size <= 50000` (the size is clamped to 500 before the window is checked, so page 100 with a requested size of 1000 is accepted), that is, the last record of the page (`from + size`) stays within the window. The tests only separate page 100 of 500 (accepted) from page 101 of 500 (rejected). A strict `(page - 1) * page_size < 50000` also separates those two but differs elsewhere: page 167 of 300 ends at 50100, which this model rejects and that reading accepts. `dplaapi/types.py` is not part of this model, so the rule is a choice.
- The key order of the term-match body (`query`, `sort`, `from`, `size`, then `_source`, then `aggs`, as CompileKeys states) is this model's choice. Python dict equality ignores order, and the tests check only that the keys are present.
- Text.ParseNat accepts only strings of ASCII digits. Python's `int()` also accepts surrounding whitespace, a leading `+` and non-ASCII digits. `dplaapi/types.py` is not part of this model and the tests do not pin those inputs.
- SearchQuery.QueryStringFields: the test's field list names `sourceResource.subject.name^1` twice and compares two `sort()` results, which are both `None`. The test therefore pins nothing. The modelled list follows the boost table, with each field once.

## Findings

| source | as written | input that shows it | evidently intended | confidence | as-written member | corrected member |
|---|---|---|---|---|---|---|
| dplaapi/queries/lda_query.py:50 | `self.query['query']['script']['params']['queryVector'] = params['vector']` reads a `script` key under `query`, where the skeleton has only `script_score` | any parameters, e.g. `{'vector': [], 'page': 1, 'page_size': 10}`: `KeyError: 'script'` | assign along `query → script_score → script → params → queryVector` | not executed | LdaQuery.InitAsWrittenFails | LdaQuery.LdaQuery.constructor |
