/**
 * The term-match query compiler of the `/v2/items` endpoint (`SearchQuery`
 * and its helpers): from a validated mapping to the backend request body.
 */
module SearchQuery {
  import opened Wrappers
  import opened Json
  import Dict
  import Text
  import Taxonomy
  import Types
  import BaseQuery

  // Field lists of the free-text clauses.

  /** `name^boost`. */
  function Boosted(name: string, boost: string): string {
    name + "^" + boost
  }

  /**
   * `q_fields_clause` (and the generator `q_fields_clause_items` it lists):
   * the `name^boost` of each entry that has a boost, in the table's order.
   */
  function QFieldsClause(boosts: Dict.Assoc<Option<string>>): (r: seq<string>)
    ensures |r| <= |boosts|
  {
    if boosts == [] then []
    else
      (match boosts[0].1
       case None => []
       case Some(b) => [Boosted(boosts[0].0, b)])
      + QFieldsClause(boosts[1..])
  }

  /** `exact_field_match=true` among the control parameters. */
  predicate ExactFieldMatch(constraints: Types.Params) {
    Dict.Get(constraints, "exact_field_match") == Some("true")
  }

  /**
   * `single_field_fields_clause`: the field list of a one-field clause. Under
   * exact matching a text field is replaced by its `.not_analyzed` sibling and
   * carries no boost; otherwise the boost is appended when there is one.
   */
  function SingleFieldFieldsClause(field: string, boost: Option<string>, constraints: Types.Params): (r: seq<string>)
    ensures |r| == 1 && field <= r[0]
    ensures !(ExactFieldMatch(constraints) && Taxonomy.Kind(field) == Some(Taxonomy.Text)) ==>
              r == (if boost.Some? then [field + "^" + boost.value] else [field])
    ensures ExactFieldMatch(constraints) && Taxonomy.Kind(field) == Some(Taxonomy.Text) ==>
              r == [field + ".not_analyzed"]
  {
    if ExactFieldMatch(constraints) && Taxonomy.Kind(field) == Some(Taxonomy.Text) then
      [Taxonomy.NotAnalyzed(field)]
    else match boost
      case Some(b) => [Boosted(field, b)]
      case None => [field]
  }

  /**
   * `fields_and_constraints`: record-field constraints on the left, control
   * parameters on the right; every parameter lands on exactly one side.
   */
  function FieldsAndConstraints(params: Types.Params): (r: (Types.Params, Types.Params))
    ensures |r.0| + |r.1| == |params|
  {
    if params == [] then ([], [])
    else
      var rest := FieldsAndConstraints(params[1..]);
      if params[0].0 in Types.ControlParams then (rest.0, [params[0]] + rest.1)
      else ([params[0]] + rest.0, rest.1)
  }

  // The match clause.

  /** A `query_string` clause searching `fields` for `query`. */
  function QueryString(query: string, fields: seq<string>): Json {
    JObj([("query_string", JObj([("query", JStr(query)), ("fields", JArr(Strings(fields)))]))])
  }

  /** The clause of `q`: all boosted fields of the taxonomy. */
  function SearchTermsClause(q: string): Json {
    QueryString(q, QFieldsClause(Taxonomy.Boosts))
  }

  /** One clause per record-field constraint, in the order given. */
  function FieldClauses(fields: Types.Params, constraints: Types.Params): (r: seq<Json>)
    ensures |r| == |fields|
  {
    if fields == [] then []
    else
      var (f, v) := fields[0];
      [QueryString(v, SingleFieldFieldsClause(f, Taxonomy.Boost(f), constraints))]
      + FieldClauses(fields[1..], constraints)
  }

  /** `match_all` when there is nothing to search for, else a `bool` clause that must match every part. */
  function MatchClause(q: Option<string>, fields: Types.Params, constraints: Types.Params): Json {
    if q.None? && fields == [] then BaseQuery.MatchAll
    else
      var terms := if q.Some? then [SearchTermsClause(q.value)] else [];
      JObj([("bool", JObj([("must", JArr(terms + FieldClauses(fields, constraints)))]))])
  }

  // The sort clause.

  /** Distance from the pin, nearest first for asc; no tiebreak. */
  function GeoDistanceSort(pin: string, order: Types.SortOrder): Json {
    JObj([("_geo_distance", JObj([
      (Taxonomy.Coordinates, JStr(pin)),
      ("order", JStr(order.Name())),
      ("unit", JStr("mi"))]))])
  }

  /** The three-way sort rule: default, geo distance, or one field then relevance. */
  function SortClause(sortBy: Option<string>, order: Types.SortOrder, pin: Option<string>): (r: seq<Json>)
    requires sortBy == Some(Taxonomy.Coordinates) ==> pin.Some?
    ensures 1 <= |r| <= 2
  {
    match sortBy
    case None => BaseQuery.DefaultSort
    case Some(f) =>
      if f == Taxonomy.Coordinates then [GeoDistanceSort(pin.value, order)]
      else BaseQuery.SingleFieldSort(f, order)
  }

  // The facets clause.

  /** `clean_facet_name`: the facet's field, without any `:lat:lon` qualifier. */
  function CleanFacetName(name: string): (r: string)
    ensures |r| <= |name| && r == name[..|r|] && ':' !in r
    ensures |r| < |name| ==> name[|r|] == ':'
    ensures ':' !in name ==> r == name
  {
    Text.BeforeIsFirstPart(name, ':');
    Text.Before(name, ':')
  }

  function Terms(field: string): Json {
    JObj([("terms", JObj([("field", JStr(field))]))])
  }

  function DateHistogram(field: string): Json {
    JObj([("date_histogram", JObj([
      ("field", JStr(field)),
      ("interval", JStr("year")),
      ("min_doc_count", JInt(2)),
      ("order", JObj([("_key", JStr("desc"))]))]))])
  }

  /** The `k`-th 100-mile band, from `100k` to `100k + 99`. */
  function Band(k: nat): Json {
    JObj([("from", JInt(100 * k)), ("to", JInt(100 * k + 99))])
  }

  /** 21 bands of 100 miles and an open-ended band from 2100 miles. */
  const GeoRanges: seq<Json> := [
    Band(0), Band(1), Band(2), Band(3), Band(4), Band(5), Band(6), Band(7), Band(8), Band(9),
    Band(10), Band(11), Band(12), Band(13), Band(14), Band(15), Band(16), Band(17), Band(18),
    Band(19), Band(20), JObj([("from", JInt(2100))])]

  function GeoDistance(field: string, origin: string): Json {
    JObj([("geo_distance", JObj([
      ("field", JStr(field)),
      ("origin", JStr(origin)),
      ("unit", JStr("mi")),
      ("ranges", JArr(GeoRanges))]))])
  }

  /** `facets_for`: the aggregation of one facet, by the kind of its field. */
  function FacetsFor(name: string): (r: Result<Json, Types.ValidationError>)
    ensures r.Err? ==> r.error.param == "facets"
    ensures var kind := Taxonomy.Kind(CleanFacetName(name));
            r.Ok? <==> kind.Some? && (kind == Some(Taxonomy.GeoPoint) ==> |Text.Split(name, ':')| == 3)
  {
    var parts := Text.Split(name, ':');
    var field := parts[0];
    var kind := Taxonomy.Kind(field);
    if kind.None? then Err(Types.ValidationError("facets", Types.UnknownField))
    else if kind.value.Keyword? then Ok(Terms(field))
    else if kind.value.Text? then Ok(Terms(Taxonomy.NotAnalyzed(field)))
    else if kind.value.Date? then Ok(DateHistogram(field))
    else if |parts| == 3 then Ok(GeoDistance(field, parts[1] + "," + parts[2]))
    else Err(Types.ValidationError("facets", Types.BadFacet))
  }

  /**
   * The aggregations of `names`, built left to right into `acc` as a dict
   * comprehension does (a repeated key keeps its place and takes the later
   * value); `facet` is the per-facet builder (`FacetsFor`, or a stand-in).
   */
  function Aggregations(acc: Dict.Assoc<Json>, names: seq<string>, facet: string -> Result<Json, Types.ValidationError>):
    (r: Result<Dict.Assoc<Json>, Types.ValidationError>)
    ensures r.Ok? ==> Dict.Keys(acc) <= Dict.Keys(r.value) && |r.value| <= |acc| + |names|
    decreases |names|
  {
    if names == [] then Ok(acc)
    else
      var agg :- facet(names[0]);
      Aggregations(Dict.Put(acc, CleanFacetName(names[0]), agg), names[1..], facet)
  }

  /** `facets_clause` with the facet builder as a parameter. */
  function FacetsClauseWith(facets: string, facet: string -> Result<Json, Types.ValidationError>):
    Result<Json, Types.ValidationError>
  {
    var aggs :- Aggregations([], Text.Split(facets, ','), facet);
    Ok(JObj(aggs))
  }

  /** `facets_clause`: one aggregation per comma-separated facet, keyed by its clean name. */
  function FacetsClause(facets: string): (r: Result<Json, Types.ValidationError>)
    ensures r.Ok? ==> r.value.JObj?
    ensures r.Err? ==> r.error.param == "facets"
  {
    var names := Text.Split(facets, ',');
    assert Aggregations([], names, FacetsFor).Err? ==> Aggregations([], names, FacetsFor).error.param == "facets" by {
      if Aggregations([], names, FacetsFor).Err? {
        AggregationsErr([], names, FacetsFor);
      }
    }
    FacetsClauseWith(facets, FacetsFor)
  }

  // The whole request body.

  /** `_source`: the requested record fields, when `fields` was given. */
  function SourceClause(fields: Option<string>): Dict.Assoc<Json> {
    match fields
    case None => []
    case Some(f) => [("_source", JArr(Strings(Text.Split(f, ','))))]
  }

  /** The match clause of a validated mapping. */
  function QueryOf(spec: Types.Spec): Json {
    var (fields, constraints) := FieldsAndConstraints(spec.strings);
    MatchClause(Dict.Get(constraints, "q"), fields, constraints)
  }

  /** The sort of a validated mapping. */
  function SortOf(spec: Types.Spec): seq<Json>
    requires Types.WellFormed(spec)
  {
    ConstraintsOf(spec);
    var constraints := FieldsAndConstraints(spec.strings).1;
    SortClause(Dict.Get(constraints, "sort_by"), spec.sortOrder, Dict.Get(constraints, "sort_by_pin"))
  }

  /** The match clause, the sort and the page. */
  function SearchClauses(spec: Types.Spec): Dict.Assoc<Json>
    requires Types.WellFormed(spec)
  {
    [("query", QueryOf(spec)),
     ("sort", JArr(SortOf(spec))),
     ("from", JInt((spec.page - 1) * spec.pageSize)),
     ("size", JInt(spec.pageSize))]
  }

  /** The body without its aggregations: match clause, sort, the page and the returned fields. */
  function RequestBody(spec: Types.Spec): Dict.Assoc<Json>
    requires Types.WellFormed(spec)
  {
    SearchClauses(spec) + SourceClause(Dict.Get(spec.strings, "fields"))
  }

  /** `SearchQuery(params).query`; fails only on an unknown or malformed facet. */
  function Compile(spec: Types.Spec): (r: Result<Json, Types.ValidationError>)
    requires Types.WellFormed(spec)
    ensures r.Ok? ==> r.value.JObj?
    ensures r.Err? ==> Dict.Get(spec.strings, "facets").Some? && r.error.param == "facets"
  {
    match Dict.Get(spec.strings, "facets")
    case None => Ok(JObj(RequestBody(spec)))
    case Some(fs) =>
      var aggs :- FacetsClause(fs);
      Ok(JObj(RequestBody(spec) + [("aggs", aggs)]))
  }

  // Properties of the field lists.

  /** The field list of a concatenated table is the concatenation of the field lists: order is kept. */
  lemma {:induction false} QFieldsClauseAppend(a: Dict.Assoc<Option<string>>, b: Dict.Assoc<Option<string>>)
    ensures QFieldsClause(a + b) == QFieldsClause(a) + QFieldsClause(b)
  {
    if a != [] {
      assert (a + b)[0] == a[0] && (a + b)[1..] == a[1..] + b;
      QFieldsClauseAppend(a[1..], b);
      var head := match a[0].1 case None => [] case Some(x) => [Boosted(a[0].0, x)];
      calc {
        QFieldsClause(a + b);
        head + QFieldsClause(a[1..] + b);
        head + (QFieldsClause(a[1..]) + QFieldsClause(b));
        (head + QFieldsClause(a[1..])) + QFieldsClause(b);
        { assert QFieldsClause(a) == head + QFieldsClause(a[1..]); }
        QFieldsClause(a) + QFieldsClause(b);
      }
    } else {
      assert a + b == b;
    }
  }

  /** Each entry with a boost shows up as `name^boost`, and nothing else shows up. */
  lemma {:induction false} QFieldsClauseMembers(boosts: Dict.Assoc<Option<string>>)
    ensures forall i :: 0 <= i < |boosts| && boosts[i].1.Some? ==>
              Boosted(boosts[i].0, boosts[i].1.value) in QFieldsClause(boosts)
    ensures forall s :: s in QFieldsClause(boosts) ==>
              exists i :: 0 <= i < |boosts| && boosts[i].1.Some? && s == Boosted(boosts[i].0, boosts[i].1.value)
  {
    if boosts != [] {
      QFieldsClauseMembers(boosts[1..]);
      var r := QFieldsClause(boosts);
      var rest := QFieldsClause(boosts[1..]);
      assert r == (if boosts[0].1.Some? then [Boosted(boosts[0].0, boosts[0].1.value)] else []) + rest;
      forall s | s in r
        ensures exists i :: 0 <= i < |boosts| && boosts[i].1.Some? && s == Boosted(boosts[i].0, boosts[i].1.value)
      {
        if s !in rest {
          assert s == Boosted(boosts[0].0, boosts[0].1.value);
        } else {
          var j :| 0 <= j < |boosts[1..]| && boosts[1..][j].1.Some? && s == Boosted(boosts[1..][j].0, boosts[1..][j].1.value);
          assert boosts[j + 1] == boosts[1..][j];
        }
      }
      forall i | 0 <= i < |boosts| && boosts[i].1.Some?
        ensures Boosted(boosts[i].0, boosts[i].1.value) in r
      {
        if i > 0 {
          assert boosts[i] == boosts[1..][i - 1];
        }
      }
    }
  }

  /** An entry without a boost is dropped: `{a: 1, b: None, c: 2}` gives `[a^1, c^2]`. */
  lemma QFieldsClauseExample()
    ensures QFieldsClause([("a", Some("1")), ("b", None), ("c", Some("2"))]) == ["a^1", "c^2"]
  {
    assert Boosted("a", "1") == "a^1" && Boosted("c", "2") == "c^2";
  }

  /** The fields a free-text search covers, with their boosts: title 2, description 0.75, the rest 1. */
  lemma QueryStringFields()
    ensures QFieldsClause(Taxonomy.Boosts) == [
      "sourceResource.title^2",
      "sourceResource.description^0.75",
      "sourceResource.subject.name^1",
      "sourceResource.collection.title^1",
      "sourceResource.collection.description^1",
      "sourceResource.contributor^1",
      "sourceResource.creator^1",
      "sourceResource.extent^1",
      "sourceResource.format^1",
      "sourceResource.language.name^1",
      "sourceResource.publisher^1",
      "sourceResource.relation^1",
      "sourceResource.spatial.name^1",
      "sourceResource.specType^1",
      "sourceResource.type^1",
      "dataProvider^1",
      "intermediateProvider^1",
      "provider.name^1"]
  {
    QueryStringFields0To18();
    assert Taxonomy.Boosts == Taxonomy.Boosts[0..18];
  }

  // The table is unfolded six entries at a time.

  lemma QueryStringFields0To18()
    ensures QFieldsClause(Taxonomy.Boosts[0..18]) == [
      "sourceResource.title^2",
      "sourceResource.description^0.75",
      "sourceResource.subject.name^1",
      "sourceResource.collection.title^1",
      "sourceResource.collection.description^1",
      "sourceResource.contributor^1",
      "sourceResource.creator^1",
      "sourceResource.extent^1",
      "sourceResource.format^1",
      "sourceResource.language.name^1",
      "sourceResource.publisher^1",
      "sourceResource.relation^1",
      "sourceResource.spatial.name^1",
      "sourceResource.specType^1",
      "sourceResource.type^1",
      "dataProvider^1",
      "intermediateProvider^1",
      "provider.name^1"]
  {
    var b := Taxonomy.Boosts;
    assert QFieldsClause(b[0..12]) == ["sourceResource.title^2", "sourceResource.description^0.75", "sourceResource.subject.name^1", "sourceResource.collection.title^1", "sourceResource.collection.description^1", "sourceResource.contributor^1", "sourceResource.creator^1", "sourceResource.extent^1", "sourceResource.format^1", "sourceResource.language.name^1", "sourceResource.publisher^1", "sourceResource.relation^1"] by {
      QFieldsClauseSlice(b, 0, 6, 12);
      QueryStringFields0To6();
      QueryStringFields6To12();
    }
    QFieldsClauseSlice(b, 0, 12, 18);
    QueryStringFields12To18();
  }

  lemma QueryStringFields0To6()
    ensures QFieldsClause(Taxonomy.Boosts[0..6]) == ["sourceResource.title^2", "sourceResource.description^0.75", "sourceResource.subject.name^1", "sourceResource.collection.title^1", "sourceResource.collection.description^1", "sourceResource.contributor^1"]
  {
    var b := Taxonomy.Boosts;
    QFieldsClauseStep(b, 5, 6);
    QFieldsClauseStep(b, 4, 6);
    QFieldsClauseStep(b, 3, 6);
    QFieldsClauseStep(b, 2, 6);
    QFieldsClauseStep(b, 1, 6);
    QFieldsClauseStep(b, 0, 6);
    assert Boosted(b[0].0, b[0].1.value) == "sourceResource.title^2";
    assert Boosted(b[1].0, b[1].1.value) == "sourceResource.description^0.75";
    assert Boosted(b[2].0, b[2].1.value) == "sourceResource.subject.name^1";
    assert Boosted(b[3].0, b[3].1.value) == "sourceResource.collection.title^1";
    assert Boosted(b[4].0, b[4].1.value) == "sourceResource.collection.description^1";
    assert Boosted(b[5].0, b[5].1.value) == "sourceResource.contributor^1";
  }

  lemma QueryStringFields6To12()
    ensures QFieldsClause(Taxonomy.Boosts[6..12]) == ["sourceResource.creator^1", "sourceResource.extent^1", "sourceResource.format^1", "sourceResource.language.name^1", "sourceResource.publisher^1", "sourceResource.relation^1"]
  {
    var b := Taxonomy.Boosts;
    QFieldsClauseStep(b, 11, 12);
    QFieldsClauseStep(b, 10, 12);
    QFieldsClauseStep(b, 9, 12);
    QFieldsClauseStep(b, 8, 12);
    QFieldsClauseStep(b, 7, 12);
    QFieldsClauseStep(b, 6, 12);
    assert Boosted(b[6].0, b[6].1.value) == "sourceResource.creator^1";
    assert Boosted(b[7].0, b[7].1.value) == "sourceResource.extent^1";
    assert Boosted(b[8].0, b[8].1.value) == "sourceResource.format^1";
    assert Boosted(b[9].0, b[9].1.value) == "sourceResource.language.name^1";
    assert Boosted(b[10].0, b[10].1.value) == "sourceResource.publisher^1";
    assert Boosted(b[11].0, b[11].1.value) == "sourceResource.relation^1";
  }

  lemma QueryStringFields12To18()
    ensures QFieldsClause(Taxonomy.Boosts[12..18]) == ["sourceResource.spatial.name^1", "sourceResource.specType^1", "sourceResource.type^1", "dataProvider^1", "intermediateProvider^1", "provider.name^1"]
  {
    var b := Taxonomy.Boosts;
    QFieldsClauseStep(b, 17, 18);
    QFieldsClauseStep(b, 16, 18);
    QFieldsClauseStep(b, 15, 18);
    QFieldsClauseStep(b, 14, 18);
    QFieldsClauseStep(b, 13, 18);
    QFieldsClauseStep(b, 12, 18);
    assert Boosted(b[12].0, b[12].1.value) == "sourceResource.spatial.name^1";
    assert Boosted(b[13].0, b[13].1.value) == "sourceResource.specType^1";
    assert Boosted(b[14].0, b[14].1.value) == "sourceResource.type^1";
    assert Boosted(b[15].0, b[15].1.value) == "dataProvider^1";
    assert Boosted(b[16].0, b[16].1.value) == "intermediateProvider^1";
    assert Boosted(b[17].0, b[17].1.value) == "provider.name^1";
  }

  lemma QFieldsClauseStep(b: Dict.Assoc<Option<string>>, k: nat, hi: nat)
    requires k < hi <= |b| && b[k].1.Some?
    ensures QFieldsClause(b[k..hi]) == [Boosted(b[k].0, b[k].1.value)] + QFieldsClause(b[k + 1..hi])
  {
    assert b[k..hi][0] == b[k] && b[k..hi][1..] == b[k + 1..hi];
  }

  lemma QFieldsClauseSlice(b: Dict.Assoc<Option<string>>, lo: nat, mid: nat, hi: nat)
    requires lo <= mid <= hi <= |b|
    ensures QFieldsClause(b[lo..hi]) == QFieldsClause(b[lo..mid]) + QFieldsClause(b[mid..hi])
  {
    assert b[lo..hi] == b[lo..mid] + b[mid..hi];
    QFieldsClauseAppend(b[lo..mid], b[mid..hi]);
  }

  /** With a boost: `[field^1]`; without: `[field]`; exact match on a text field: `[field.not_analyzed]`. */
  lemma SingleFieldFieldsClauseExamples()
    ensures SingleFieldFieldsClause("field", Some("1"), []) == ["field^1"]
    ensures SingleFieldFieldsClause("field", None, []) == ["field"]
    ensures SingleFieldFieldsClause("dataProvider", None, [("exact_field_match", "true")]) ==
            ["dataProvider.not_analyzed"]
  {
    assert Taxonomy.NotAnalyzed("dataProvider") == "dataProvider.not_analyzed";
    assert Boosted("field", "1") == "field^1";
  }

  /** Under exact matching a text field's clause targets its sibling and never carries a boost. */
  lemma SingleFieldExactDropsBoost(field: string, boost: Option<string>, constraints: Types.Params)
    requires ExactFieldMatch(constraints) && Taxonomy.Kind(field) == Some(Taxonomy.Text)
    ensures SingleFieldFieldsClause(field, boost, constraints) == [field + ".not_analyzed"]
    ensures '^' !in field ==> '^' !in SingleFieldFieldsClause(field, boost, constraints)[0]
  {
  }

  /**
   * Every parameter lands on exactly one side: record fields on the left,
   * control parameters on the right, each side answering lookups as the
   * whole mapping does.
   */
  lemma {:induction false} FieldsAndConstraintsPartition(params: Types.Params)
    ensures forall kv :: kv in FieldsAndConstraints(params).0 <==> kv in params && kv.0 !in Types.ControlParams
    ensures forall kv :: kv in FieldsAndConstraints(params).1 <==> kv in params && kv.0 in Types.ControlParams
    ensures forall k :: k !in Types.ControlParams ==>
              Dict.Get(FieldsAndConstraints(params).0, k) == Dict.Get(params, k)
    ensures forall k :: k in Types.ControlParams ==>
              Dict.Get(FieldsAndConstraints(params).1, k) == Dict.Get(params, k)
  {
    if params != [] {
      FieldsAndConstraintsPartition(params[1..]);
      assert params == [params[0]] + params[1..];
    }
  }

  lemma FieldsAndConstraintsCons(kv: (string, string), rest: Types.Params)
    ensures FieldsAndConstraints([kv] + rest) ==
            if kv.0 in Types.ControlParams then (FieldsAndConstraints(rest).0, [kv] + FieldsAndConstraints(rest).1)
            else ([kv] + FieldsAndConstraints(rest).0, FieldsAndConstraints(rest).1)
  {
    assert ([kv] + rest)[0] == kv && ([kv] + rest)[1..] == rest;
  }

  /** Record fields and control parameters are told apart: the example from the source's tests. */
  lemma FieldsAndConstraintsExample()
    ensures FieldsAndConstraints([
              ("dataProvider", "x"), ("sourceResource.type", "x"), ("fields", "sourceResource.title")])
            == ([("dataProvider", "x"), ("sourceResource.type", "x")], [("fields", "sourceResource.title")])
  {
    var a, b, c := ("dataProvider", "x"), ("sourceResource.type", "x"), ("fields", "sourceResource.title");
    assert a.0 !in Types.ControlParams && b.0 !in Types.ControlParams && c.0 in Types.ControlParams;
    assert FieldsAndConstraints([]) == ([], []);
    FieldsAndConstraintsCons(c, []);
    assert [c] + [] == [c];
    assert FieldsAndConstraints([c]) == ([], [c]);
    FieldsAndConstraintsCons(b, [c]);
    assert [b] + [c] == [b, c] && [b] + [] == [b];
    assert FieldsAndConstraints([b, c]) == ([b], [c]);
    FieldsAndConstraintsCons(a, [b, c]);
    assert [a] + [b, c] == [a, b, c];
    assert [a] + [b] == [a, b];
  }

  // Properties of the facets clause.

  /** `clean_facet_name('x:y:z') == 'x'`. */
  lemma CleanFacetNameExample()
    ensures CleanFacetName("x:y:z") == "x"
  {
    Text.SplitAtFirst("x", ':', "y:z");
    assert "x" + [':'] + "y:z" == "x:y:z";
  }

  /** The ladder: 21 bands of 100 miles, 0-99 up to 2000-2099, then everything from 2100 on. */
  lemma GeoRangesShape()
    ensures |GeoRanges| == 22
    ensures forall k :: 0 <= k < 21 ==>
              GeoRanges[k] == JObj([("from", JInt(100 * k)), ("to", JInt(100 * k + 99))])
    ensures GeoRanges[21] == JObj([("from", JInt(2100))])
  {
  }

  /** Whether a band (or the open last band) holds a distance, bounds included. */
  predicate InBand(band: Json, miles: int) {
    && Get(band, "from").Some? && Get(band, "from").value.JInt?
    && Get(band, "from").value.num <= miles
    && (Get(band, "to").Some? ==> Get(band, "to").value.JInt? && miles <= Get(band, "to").value.num)
  }

  /** Every whole distance falls into exactly one band: the bands leave no gap and never overlap. */
  lemma GeoRangesPartition(miles: nat)
    ensures var k := if miles >= 2100 then 21 else miles / 100;
            InBand(GeoRanges[k], miles) &&
            forall j :: 0 <= j < |GeoRanges| && j != k ==> !InBand(GeoRanges[j], miles)
  {
    var k := if miles >= 2100 then 21 else miles / 100;
    GeoRangesBands();
    LastBandHolds(miles);
    if k < 21 {
      assert 100 * k <= miles <= 100 * k + 99;
      BandHolds(k, miles);
    }
    forall j | 0 <= j < 21 && j != k
      ensures !InBand(GeoRanges[j], miles)
    {
      BandHolds(j, miles);
    }
  }

  /** The first 21 bands are the 100-mile bands in order. */
  lemma GeoRangesBands()
    ensures |GeoRanges| == 22
    ensures forall j :: 0 <= j < 21 ==> GeoRanges[j] == Band(j)
  { }

  /** A 100-mile band holds exactly the distances between its bounds. */
  lemma BandHolds(j: nat, miles: int)
    ensures InBand(Band(j), miles) <==> 100 * j <= miles <= 100 * j + 99
  {
    assert Get(Band(j), "from") == Some(JInt(100 * j));
    assert Get(Band(j), "to") == Some(JInt(100 * j + 99));
  }

  /** The last band holds every distance from 2100 miles on. */
  lemma LastBandHolds(miles: int)
    ensures InBand(GeoRanges[21], miles) <==> 2100 <= miles
  {
    assert GeoRanges[21] == JObj([("from", JInt(2100))]);
    assert Get(GeoRanges[21], "from") == Some(JInt(2100));
    assert Get(GeoRanges[21], "to") == None;
  }

  /** A facet on a field with no `:` is named by the field itself and classified by its kind. */
  lemma FacetsForPlain(name: string)
    requires ':' !in name
    ensures Taxonomy.Kind(name).None? ==>
              FacetsFor(name) == Err(Types.ValidationError("facets", Types.UnknownField))
    ensures Taxonomy.Kind(name) == Some(Taxonomy.Keyword) ==> FacetsFor(name) == Ok(Terms(name))
    ensures Taxonomy.Kind(name) == Some(Taxonomy.Text) ==>
              FacetsFor(name) == Ok(Terms(Taxonomy.NotAnalyzed(name)))
    ensures Taxonomy.Kind(name) == Some(Taxonomy.Date) ==> FacetsFor(name) == Ok(DateHistogram(name))
    ensures Taxonomy.Kind(name) == Some(Taxonomy.GeoPoint) ==>
              FacetsFor(name) == Err(Types.ValidationError("facets", Types.BadFacet))
  {
    Text.SplitNoSep(name, ':');
    var kind := Taxonomy.Kind(name);
    if kind.None? {
    } else if kind.value.Keyword? {
    } else if kind.value.Text? {
    } else if kind.value.Date? {
    } else {
    }
  }

  /** The three plain facet names of the examples below: their kind, and no `:` in them. */
  lemma PlainFacetNames()
    ensures ':' !in "hasView.@id" && Taxonomy.Kind("hasView.@id") == Some(Taxonomy.Keyword)
    ensures ':' !in "intermediateProvider" && Taxonomy.Kind("intermediateProvider") == Some(Taxonomy.Text)
    ensures Taxonomy.NotAnalyzed("intermediateProvider") == "intermediateProvider.not_analyzed"
    ensures ':' !in "sourceResource.date.begin" &&
            Taxonomy.Kind("sourceResource.date.begin") == Some(Taxonomy.Date)
  {
  }

  /** A keyword field is faceted on as it is. */
  lemma FacetsForKeywordExample()
    ensures FacetsFor("hasView.@id") == Ok(JObj([("terms", JObj([("field", JStr("hasView.@id"))]))]))
  {
    PlainFacetNames();
    FacetsForPlain("hasView.@id");
  }

  /** A text field is faceted on through its `.not_analyzed` sibling. */
  lemma FacetsForTextExample()
    ensures FacetsFor("intermediateProvider") ==
            Ok(JObj([("terms", JObj([("field", JStr("intermediateProvider.not_analyzed"))]))]))
  {
    PlainFacetNames();
    FacetsForPlain("intermediateProvider");
  }

  /** The date field gets a yearly histogram of buckets with at least two records, latest first. */
  lemma FacetsForDateExample()
    ensures FacetsFor("sourceResource.date.begin") == Ok(JObj([("date_histogram", JObj([
              ("field", JStr("sourceResource.date.begin")),
              ("interval", JStr("year")),
              ("min_doc_count", JInt(2)),
              ("order", JObj([("_key", JStr("desc"))]))]))]))
  {
    PlainFacetNames();
    FacetsForPlain("sourceResource.date.begin");
  }

  /** The coordinates field with an origin gets the distance ladder around that origin. */
  lemma FacetsForGeoExample()
    ensures FacetsFor("sourceResource.spatial.coordinates:40.941258:-73.864468") ==
            Ok(JObj([("geo_distance", JObj([
              ("field", JStr("sourceResource.spatial.coordinates")),
              ("origin", JStr("40.941258,-73.864468")),
              ("unit", JStr("mi")),
              ("ranges", JArr(GeoRanges))]))]))
  {
    GeoFacetNameParts();
    FacetsForGeo("40.941258", "-73.864468");
  }

  /** The geo facet name of the example above, taken apart. */
  lemma GeoFacetNameParts()
    ensures ':' !in "40.941258" && ':' !in "-73.864468"
    ensures "sourceResource.spatial.coordinates:40.941258:-73.864468" ==
            Taxonomy.Coordinates + ":" + "40.941258" + ":" + "-73.864468"
    ensures "40.941258" + "," + "-73.864468" == "40.941258,-73.864468"
  {
  }

  /** `field:lat:lon` on the coordinates field: a distance ladder around `lat,lon`. */
  lemma FacetsForGeo(lat: string, lon: string)
    requires ':' !in lat && ':' !in lon
    ensures FacetsFor(Taxonomy.Coordinates + ":" + lat + ":" + lon) ==
            Ok(GeoDistance(Taxonomy.Coordinates, lat + "," + lon))
  {
    var name := Taxonomy.Coordinates + ":" + lat + ":" + lon;
    assert name == Taxonomy.Coordinates + [':'] + (lat + [':'] + lon);
    Text.SplitAtFirst(Taxonomy.Coordinates, ':', lat + [':'] + lon);
    Text.SplitAtFirst(lat, ':', lon);
    Text.SplitNoSep(lon, ':');
    Taxonomy.SpecialFieldKinds();
  }

  /** A facet on a name outside the taxonomy is a validation error. */
  lemma FacetsForUnknownExample()
    ensures FacetsFor("x") == Err(Types.ValidationError("facets", Types.UnknownField))
  {
    Text.SplitNoSep("x", ':');
  }

  /** The clean names of a facet list. */
  function CleanNames(names: seq<string>): set<string> {
    set i | 0 <= i < |names| :: CleanFacetName(names[i])
  }

  /** Whether no facet after position `i` has the same clean name as the one at `i`. */
  predicate LastOfItsName(names: seq<string>, i: nat)
    requires i < |names|
  {
    forall j :: i < j < |names| ==> CleanFacetName(names[j]) != CleanFacetName(names[i])
  }

  /** The aggregations succeed exactly when every facet does. */
  lemma {:induction false} AggregationsOk(acc: Dict.Assoc<Json>, names: seq<string>,
                                          facet: string -> Result<Json, Types.ValidationError>)
    ensures Aggregations(acc, names, facet).Ok? <==> forall i :: 0 <= i < |names| ==> facet(names[i]).Ok?
    decreases |names|
  {
    if names != [] && facet(names[0]).Ok? {
      AggregationsOk(Dict.Put(acc, CleanFacetName(names[0]), facet(names[0]).value), names[1..], facet);
      assert forall i :: 1 <= i < |names| ==> names[1..][i - 1] == names[i];
    }
  }

  lemma CleanNamesCons(names: seq<string>)
    requires names != []
    ensures CleanNames(names) == {CleanFacetName(names[0])} + CleanNames(names[1..])
  {
    var tail := names[1..];
    forall k | k in CleanNames(names) ensures k in {CleanFacetName(names[0])} + CleanNames(tail) {
      var i :| 0 <= i < |names| && k == CleanFacetName(names[i]);
      if i > 0 { assert names[i] == tail[i - 1]; }
    }
    forall k | k in CleanNames(tail) ensures k in CleanNames(names) {
      var i :| 0 <= i < |tail| && k == CleanFacetName(tail[i]);
      assert tail[i] == names[i + 1];
    }
  }

  /** Successful aggregations hold the clean names on top of what `acc` held, each key once. */
  lemma {:induction false} AggregationsKeys(acc: Dict.Assoc<Json>, names: seq<string>,
                                            facet: string -> Result<Json, Types.ValidationError>)
    requires Dict.DistinctKeys(acc) && Aggregations(acc, names, facet).Ok?
    ensures Dict.DistinctKeys(Aggregations(acc, names, facet).value)
    ensures Dict.Keys(Aggregations(acc, names, facet).value) == Dict.Keys(acc) + CleanNames(names)
    decreases |names|
  {
    if names != [] {
      var key := CleanFacetName(names[0]);
      var next := Dict.Put(acc, key, facet(names[0]).value);
      Dict.PutDistinct(acc, key, facet(names[0]).value);
      AggregationsKeys(next, names[1..], facet);
      CleanNamesCons(names);
    }
  }

  /**
   * In successful aggregations a facet's key holds the aggregation of the
   * last facet with that name, and every other key is left as it was.
   */
  lemma {:induction false} AggregationsValues(acc: Dict.Assoc<Json>, names: seq<string>,
                                              facet: string -> Result<Json, Types.ValidationError>)
    requires Aggregations(acc, names, facet).Ok?
    ensures forall i :: 0 <= i < |names| && LastOfItsName(names, i) ==>
              facet(names[i]).Ok? &&
              Dict.Get(Aggregations(acc, names, facet).value, CleanFacetName(names[i])) == Some(facet(names[i]).value)
    ensures forall k :: k !in CleanNames(names) ==> Dict.Get(Aggregations(acc, names, facet).value, k) == Dict.Get(acc, k)
    decreases |names|
  {
    if names != [] {
      var head, tail := names[0], names[1..];
      var key := CleanFacetName(head);
      var next := Dict.Put(acc, key, facet(head).value);
      var r := Aggregations(acc, names, facet).value;
      assert r == Aggregations(next, tail, facet).value;
      AggregationsValues(next, tail, facet);
      CleanNamesCons(names);
      AggregationsOk(acc, names, facet);
      forall i | 0 <= i < |names| && LastOfItsName(names, i)
        ensures Dict.Get(r, CleanFacetName(names[i])) == Some(facet(names[i]).value)
      {
        if i > 0 {
          assert names[i] == tail[i - 1];
          assert LastOfItsName(tail, i - 1) by {
            forall j | i - 1 < j < |tail| ensures CleanFacetName(tail[j]) != CleanFacetName(tail[i - 1]) {
              assert tail[j] == names[j + 1];
            }
          }
        }
      }
    }
  }

  /** A failing facet list fails on its first bad facet, with that facet's error. */
  lemma {:induction false} AggregationsErr(acc: Dict.Assoc<Json>, names: seq<string>,
                                           facet: string -> Result<Json, Types.ValidationError>)
    requires Aggregations(acc, names, facet).Err?
    ensures exists j :: 0 <= j < |names| && facet(names[j]) == Err(Aggregations(acc, names, facet).error) &&
                        forall i :: 0 <= i < j ==> facet(names[i]).Ok?
    decreases |names|
  {
    if facet(names[0]).Ok? {
      var tail := names[1..];
      AggregationsErr(Dict.Put(acc, CleanFacetName(names[0]), facet(names[0]).value), tail, facet);
      var j :| 0 <= j < |tail| && facet(tail[j]) == Err(Aggregations(acc, names, facet).error) &&
               forall i :: 0 <= i < j ==> facet(tail[i]).Ok?;
      assert forall i :: 1 <= i <= j + 1 ==> tail[i - 1] == names[i];
      assert facet(names[j + 1]) == Err(Aggregations(acc, names, facet).error);
    }
  }

  /** A stand-in facet builder that answers `{}` for every name. */
  function EmptyFacet(name: string): Result<Json, Types.ValidationError> {
    Ok(JObj([]))
  }

  /**
   * `facets_clause` makes one entry per facet, in order, keyed by its clean
   * name: with a stand-in builder that answers `{}`, `x,y` gives `{x: {}, y: {}}`.
   */
  lemma FacetsClauseStandInExample()
    ensures FacetsClauseWith("x,y", EmptyFacet) == Ok(JObj([("x", JObj([])), ("y", JObj([]))]))
  {
    StandInNames();
    var one := Dict.Put([], "x", JObj([]));
    assert one == [("x", JObj([]))];
    var two := Dict.Put(one, "y", JObj([]));
    assert two == [("x", JObj([])), ("y", JObj([]))];
    assert Aggregations(two, [], EmptyFacet) == Ok(two);
    assert Aggregations(one, ["y"], EmptyFacet) == Aggregations(two, [], EmptyFacet) by {
      assert ["y"][1..] == [];
    }
    assert Aggregations([], ["x", "y"], EmptyFacet) == Aggregations(one, ["y"], EmptyFacet) by {
      assert ["x", "y"][1..] == ["y"];
    }
  }

  /** The facet list `x,y` taken apart. */
  lemma StandInNames()
    ensures Text.Split("x,y", ',') == ["x", "y"]
    ensures CleanFacetName("x") == "x" && CleanFacetName("y") == "y"
  {
    Text.SplitAtFirst("x", ',', "y");
    assert "x" + [','] + "y" == "x,y";
    Text.SplitNoSep("y", ',');
    Text.SplitNoSep("x", ':');
    Text.SplitNoSep("y", ':');
  }

  /**
   * A successful facets clause is a dict with one key per distinct clean
   * facet name; it fails exactly when one of the facets does. (`FacetsClause`
   * is this with `FacetsFor` as the builder.)
   */
  lemma FacetsClauseShape(facets: string, facet: string -> Result<Json, Types.ValidationError>)
    ensures FacetsClauseWith(facets, facet).Ok? <==> forall name :: name in Text.Split(facets, ',') ==> facet(name).Ok?
    ensures FacetsClauseWith(facets, facet).Ok? ==>
              && FacetsClauseWith(facets, facet).value.JObj?
              && Dict.DistinctKeys(FacetsClauseWith(facets, facet).value.members)
              && KeySet(FacetsClauseWith(facets, facet).value) == CleanNames(Text.Split(facets, ','))
  {
    var names := Text.Split(facets, ',');
    AggregationsOk([], names, facet);
    assert FacetsClauseWith(facets, facet).Ok? <==> Aggregations([], names, facet).Ok?;
    assert (forall i :: 0 <= i < |names| ==> facet(names[i]).Ok?) <==> forall name :: name in names ==> facet(name).Ok?;
    if FacetsClauseWith(facets, facet).Ok? {
      AggregationsKeys([], names, facet);
    }
  }

  // Properties of the whole request body.

  /** The control parameters reach the compiler unchanged. */
  lemma ConstraintsOf(spec: Types.Spec)
    ensures var constraints := FieldsAndConstraints(spec.strings).1;
            && Dict.Get(constraints, "q") == Dict.Get(spec.strings, "q")
            && Dict.Get(constraints, "fields") == Dict.Get(spec.strings, "fields")
            && Dict.Get(constraints, "facets") == Dict.Get(spec.strings, "facets")
            && Dict.Get(constraints, "sort_by") == Dict.Get(spec.strings, "sort_by")
            && Dict.Get(constraints, "sort_by_pin") == Dict.Get(spec.strings, "sort_by_pin")
            && Dict.Get(constraints, "exact_field_match") == Dict.Get(spec.strings, "exact_field_match")
  {
    FieldsAndConstraintsPartition(spec.strings);
    assert "q" in Types.ControlParams && "fields" in Types.ControlParams && "facets" in Types.ControlParams;
    assert "sort_by" in Types.ControlParams && "sort_by_pin" in Types.ControlParams;
    assert "exact_field_match" in Types.ControlParams;
  }

  /** The request fails only on its facets, and then with the error of the facets clause. */
  lemma CompileErr(spec: Types.Spec)
    requires Types.WellFormed(spec)
    ensures Compile(spec).Err? <==>
              Dict.Get(spec.strings, "facets").Some? && FacetsClause(Dict.Get(spec.strings, "facets").value).Err?
    ensures Compile(spec).Err? ==>
              Compile(spec).error == FacetsClause(Dict.Get(spec.strings, "facets").value).error
  { }

  /** A successful request is the body with the aggregations appended when facets were asked for. */
  lemma CompileOk(spec: Types.Spec)
    requires Types.WellFormed(spec) && Compile(spec).Ok?
    ensures Compile(spec).value.JObj?
    ensures Dict.Get(spec.strings, "facets").None? ==> Compile(spec).value.members == RequestBody(spec)
    ensures Dict.Get(spec.strings, "facets").Some? ==>
              var facets := FacetsClause(Dict.Get(spec.strings, "facets").value);
              facets.Ok? && Compile(spec).value.members == RequestBody(spec) + [("aggs", facets.value)]
  { }

  /** The body without aggregations: `query`, `sort`, `from`, `size`, then `_source` when `fields` was given. */
  lemma RequestBodyKeys(spec: Types.Spec)
    requires Types.WellFormed(spec)
    ensures Dict.KeySeq(RequestBody(spec)) ==
              ["query", "sort", "from", "size"] + (if Dict.Get(spec.strings, "fields").Some? then ["_source"] else [])
  {
    SearchClausesKeys(spec);
    SourceClauseKeys(Dict.Get(spec.strings, "fields"));
    Dict.KeySeqAppend(SearchClauses(spec), SourceClause(Dict.Get(spec.strings, "fields")));
  }

  lemma SearchClausesKeys(spec: Types.Spec)
    requires Types.WellFormed(spec)
    ensures Dict.KeySeq(SearchClauses(spec)) == ["query", "sort", "from", "size"]
  { }

  lemma SourceClauseKeys(fields: Option<string>)
    ensures Dict.KeySeq(SourceClause(fields)) == if fields.Some? then ["_source"] else []
  { }

  /**
   * A request body holds `query`, `sort`, `from` and `size`, in that order;
   * then `_source` exactly when `fields` was given and `aggs` exactly when
   * `facets` was.
   */
  lemma CompileKeys(spec: Types.Spec)
    requires Types.WellFormed(spec) && Compile(spec).Ok?
    ensures Compile(spec).value.JObj?
    ensures Dict.KeySeq(Compile(spec).value.members) ==
              ["query", "sort", "from", "size"]
              + (if Dict.Get(spec.strings, "fields").Some? then ["_source"] else [])
              + (if Dict.Get(spec.strings, "facets").Some? then ["aggs"] else [])
  {
    CompileOk(spec);
    RequestBodyKeys(spec);
    var body := RequestBody(spec);
    var fields := if Dict.Get(spec.strings, "fields").Some? then ["_source"] else [];
    assert Dict.KeySeq(body) == ["query", "sort", "from", "size"] + fields;
    if Dict.Get(spec.strings, "facets").Some? {
      var aggs := [("aggs", FacetsClause(Dict.Get(spec.strings, "facets").value).value)];
      assert Compile(spec).value.members == body + aggs;
      assert Dict.KeySeq(aggs) == ["aggs"];
      Dict.KeySeqAppend(body, aggs);
    } else {
      assert Compile(spec).value.members == body;
    }
  }

  /** No key of a request body appears twice. */
  lemma CompileDistinctKeys(spec: Types.Spec)
    requires Types.WellFormed(spec) && Compile(spec).Ok?
    ensures Compile(spec).value.JObj? && Dict.DistinctKeys(Compile(spec).value.members)
  {
    CompileKeys(spec);
    var fields, facets := Dict.Get(spec.strings, "fields").Some?, Dict.Get(spec.strings, "facets").Some?;
    BodyKeysDistinct(fields, facets);
    Dict.DistinctKeySeq(Compile(spec).value.members,
      ["query", "sort", "from", "size"] + (if fields then ["_source"] else []) + (if facets then ["aggs"] else []));
  }

  lemma BodyKeysDistinct(fields: bool, facets: bool)
    ensures var keys := ["query", "sort", "from", "size"] + (if fields then ["_source"] else []) + (if facets then ["aggs"] else []);
            forall i, j :: 0 <= i < j < |keys| ==> keys[i] != keys[j]
  { }

  /** Apart from `aggs`, a successful request holds what the body holds. */
  lemma CompileGetBody(spec: Types.Spec, key: string)
    requires Types.WellFormed(spec) && Compile(spec).Ok? && key != "aggs"
    ensures Compile(spec).value.JObj?
    ensures Dict.Get(Compile(spec).value.members, key) == Dict.Get(RequestBody(spec), key)
  {
    CompileOk(spec);
    if Dict.Get(spec.strings, "facets").Some? {
      var aggs := [("aggs", FacetsClause(Dict.Get(spec.strings, "facets").value).value)];
      Dict.GetAppend(RequestBody(spec), aggs, key);
      assert Dict.Get(aggs, key).None?;
    }
  }

  /** The four leading clauses of the body, looked up by key. */
  lemma RequestBodyGet(spec: Types.Spec)
    requires Types.WellFormed(spec)
    ensures Dict.Get(RequestBody(spec), "query") == Some(QueryOf(spec))
    ensures Dict.Get(RequestBody(spec), "sort") == Some(JArr(SortOf(spec)))
    ensures Dict.Get(RequestBody(spec), "from") == Some(JInt((spec.page - 1) * spec.pageSize))
    ensures Dict.Get(RequestBody(spec), "size") == Some(JInt(spec.pageSize))
  {
    var head := SearchClauses(spec);
    var source := SourceClause(Dict.Get(spec.strings, "fields"));
    SearchClausesGet(spec);
    Dict.GetAppend(head, source, "query");
    Dict.GetAppend(head, source, "sort");
    Dict.GetAppend(head, source, "from");
    Dict.GetAppend(head, source, "size");
  }

  lemma SearchClausesGet(spec: Types.Spec)
    requires Types.WellFormed(spec)
    ensures Dict.Get(SearchClauses(spec), "query") == Some(QueryOf(spec))
    ensures Dict.Get(SearchClauses(spec), "sort") == Some(JArr(SortOf(spec)))
    ensures Dict.Get(SearchClauses(spec), "from") == Some(JInt((spec.page - 1) * spec.pageSize))
    ensures Dict.Get(SearchClauses(spec), "size") == Some(JInt(spec.pageSize))
  {
    SearchClausesDistinct(spec);
    SearchClausesGetPage(spec);
  }

  lemma SearchClausesGetPage(spec: Types.Spec)
    requires Types.WellFormed(spec) && Dict.DistinctKeys(SearchClauses(spec))
    ensures Dict.Get(SearchClauses(spec), "from") == Some(JInt((spec.page - 1) * spec.pageSize))
    ensures Dict.Get(SearchClauses(spec), "size") == Some(JInt(spec.pageSize))
  {
    Dict.GetDistinct(SearchClauses(spec), 2);
    Dict.GetDistinct(SearchClauses(spec), 3);
  }

  lemma SearchClausesDistinct(spec: Types.Spec)
    requires Types.WellFormed(spec)
    ensures Dict.DistinctKeys(SearchClauses(spec))
  {
    SearchClausesKeys(spec);
    Dict.DistinctKeySeq(SearchClauses(spec), ["query", "sort", "from", "size"]);
  }

  /**
   * `from` skips the earlier pages and `size` is the page size; the last
   * requested record stays inside the result window.
   */
  lemma CompilePagination(spec: Types.Spec)
    requires Types.WellFormed(spec) && Compile(spec).Ok?
    ensures Compile(spec).value.JObj?
    ensures Dict.Get(Compile(spec).value.members, "from") == Some(JInt((spec.page - 1) * spec.pageSize))
    ensures Dict.Get(Compile(spec).value.members, "size") == Some(JInt(spec.pageSize))
    ensures 0 <= (spec.page - 1) * spec.pageSize
    ensures (spec.page - 1) * spec.pageSize + spec.pageSize <= Types.MaxResultWindow
  {
    CompileGetBody(spec, "from");
    CompileGetBody(spec, "size");
    RequestBodyGet(spec);
    PageInWindow(spec);
  }

  lemma PageInWindow(spec: Types.Spec)
    requires Types.WellFormed(spec)
    ensures 0 <= (spec.page - 1) * spec.pageSize
    ensures (spec.page - 1) * spec.pageSize + spec.pageSize <= Types.MaxResultWindow
  {
    assert (spec.page - 1) * spec.pageSize + spec.pageSize == spec.page * spec.pageSize;
  }

  // The match clause of the request.

  /** There is something to search for: `q`, or a constraint on a record field. */
  predicate HasSearchTerms(params: Types.Params) {
    Dict.Get(params, "q").Some? || exists i :: 0 <= i < |params| && params[i].0 !in Types.ControlParams
  }

  /** The record-field side of the partition is empty exactly when every parameter is a control parameter. */
  lemma NoRecordFields(params: Types.Params)
    ensures FieldsAndConstraints(params).0 == [] <==>
              forall i :: 0 <= i < |params| ==> params[i].0 in Types.ControlParams
  {
    FieldsAndConstraintsPartition(params);
    var fields := FieldsAndConstraints(params).0;
    if fields != [] {
      assert fields[0] in fields;
      var i :| 0 <= i < |params| && params[i] == fields[0];
    } else {
      forall i | 0 <= i < |params| ensures params[i].0 in Types.ControlParams {
        assert params[i] in params;
      }
    }
  }

  /**
   * `match_all` exactly when there is nothing to search for; otherwise the
   * query is a `bool` clause and has no `match_all`.
   */
  lemma MatchAllIffNoTerms(spec: Types.Spec)
    requires Types.WellFormed(spec)
    ensures QueryOf(spec) == BaseQuery.MatchAll <==> !HasSearchTerms(spec.strings)
    ensures HasSearchTerms(spec.strings) ==> KeySet(QueryOf(spec)) == {"bool"}
  {
    var (fields, constraints) := FieldsAndConstraints(spec.strings);
    assert QueryOf(spec) == MatchClause(Dict.Get(constraints, "q"), fields, constraints);
    ConstraintsOf(spec);
    NoRecordFields(spec.strings);
    MatchClauseShape(Dict.Get(constraints, "q"), fields, constraints);
  }

  lemma MatchClauseShape(q: Option<string>, fields: Types.Params, constraints: Types.Params)
    ensures MatchClause(q, fields, constraints) == BaseQuery.MatchAll <==> q.None? && fields == []
    ensures !(q.None? && fields == []) ==> KeySet(MatchClause(q, fields, constraints)) == {"bool"}
  {
    if q.Some? || fields != [] {
      BoolClauseKeys(q, fields, constraints);
      var m := MatchClause(q, fields, constraints);
      Dict.KeysSingle("bool", m.members[0].1);
    }
  }

  lemma BoolClauseKeys(q: Option<string>, fields: Types.Params, constraints: Types.Params)
    requires q.Some? || fields != []
    ensures MatchClause(q, fields, constraints).JObj?
    ensures MatchClause(q, fields, constraints).members == [("bool", MatchClause(q, fields, constraints).members[0].1)]
  { }

  /** The `must` list of a `bool` clause: the `q` clause first when there is one, then one clause per record field. */
  lemma MatchClauseMust(q: Option<string>, fields: Types.Params, constraints: Types.Params)
    requires q.Some? || fields != []
    ensures GetPath(MatchClause(q, fields, constraints), ["bool", "must"]) ==
              Some(JArr((if q.Some? then [SearchTermsClause(q.value)] else []) + FieldClauses(fields, constraints)))
  {
    var must := JArr((if q.Some? then [SearchTermsClause(q.value)] else []) + FieldClauses(fields, constraints));
    assert MatchClause(q, fields, constraints) == JObj([("bool", JObj([("must", must)]))]);
    GetPathNested("bool", "must", must);
  }

  /** Each record-field constraint contributes the clause that searches its field for its value. */
  lemma {:induction false} FieldClausesCover(fields: Types.Params, constraints: Types.Params, kv: (string, string))
    requires kv in fields
    ensures QueryString(kv.1, SingleFieldFieldsClause(kv.0, Taxonomy.Boost(kv.0), constraints)) in FieldClauses(fields, constraints)
  {
    if fields[0] != kv {
      assert kv in fields[1..];
      FieldClausesCover(fields[1..], constraints, kv);
    }
  }

  /**
   * With `q`, the first clause that must match searches all boosted fields
   * for it, and each record-field constraint adds one more clause.
   */
  lemma SearchTermsFirst(spec: Types.Spec)
    requires Types.WellFormed(spec) && Dict.Get(spec.strings, "q").Some?
    ensures var must := GetPath(QueryOf(spec), ["bool", "must"]);
            && must.Some? && must.value.JArr?
            && |must.value.items| == 1 + |FieldsAndConstraints(spec.strings).0|
            && must.value.items[0] == QueryString(Dict.Get(spec.strings, "q").value, QFieldsClause(Taxonomy.Boosts))
  {
    var (fields, constraints) := FieldsAndConstraints(spec.strings);
    assert QueryOf(spec) == MatchClause(Dict.Get(constraints, "q"), fields, constraints);
    ConstraintsOf(spec);
    MatchClauseMust(Dict.Get(constraints, "q"), fields, constraints);
  }

  /** Every record-field constraint of the mapping is searched for, with its field's boost and exact-match rule. */
  lemma FieldConstraintSearched(spec: Types.Spec, kv: (string, string))
    requires Types.WellFormed(spec) && kv in spec.strings && kv.0 !in Types.ControlParams
    ensures var must := GetPath(QueryOf(spec), ["bool", "must"]);
            && must.Some? && must.value.JArr?
            && QueryString(kv.1, SingleFieldFieldsClause(kv.0, Taxonomy.Boost(kv.0), FieldsAndConstraints(spec.strings).1))
               in must.value.items
  {
    var (fields, constraints) := FieldsAndConstraints(spec.strings);
    assert QueryOf(spec) == MatchClause(Dict.Get(constraints, "q"), fields, constraints);
    FieldsAndConstraintsPartition(spec.strings);
    assert kv in fields;
    MatchClauseMust(Dict.Get(constraints, "q"), fields, constraints);
    FieldClausesCover(fields, constraints, kv);
  }

  // The sort of the request.

  /**
   * The sort follows `sort_by`: the default order when it is absent, the
   * distance from `sort_by_pin` for the coordinates field, and otherwise
   * the requested field followed by relevance.
   */
  lemma SortOfCases(spec: Types.Spec)
    requires Types.WellFormed(spec)
    ensures Dict.Get(spec.strings, "sort_by").None? ==> SortOf(spec) == BaseQuery.DefaultSort
    ensures Dict.Get(spec.strings, "sort_by") == Some(Taxonomy.Coordinates) ==>
              SortOf(spec) == [GeoDistanceSort(Dict.Get(spec.strings, "sort_by_pin").value, spec.sortOrder)]
    ensures Dict.Get(spec.strings, "sort_by").Some? && Dict.Get(spec.strings, "sort_by") != Some(Taxonomy.Coordinates) ==>
              SortOf(spec) == BaseQuery.SingleFieldSort(Dict.Get(spec.strings, "sort_by").value, spec.sortOrder)
  {
    ConstraintsOf(spec);
  }

  /** Relevance takes part in every sort except the distance sort, which has no tiebreak. */
  lemma SortKeepsRelevance(spec: Types.Spec)
    requires Types.WellFormed(spec)
    ensures BaseQuery.ScoreDesc in SortOf(spec) <==> Dict.Get(spec.strings, "sort_by") != Some(Taxonomy.Coordinates)
  {
    SortOfCases(spec);
    if Dict.Get(spec.strings, "sort_by") == Some(Taxonomy.Coordinates) {
      var geo := GeoDistanceSort(Dict.Get(spec.strings, "sort_by_pin").value, spec.sortOrder);
      assert geo.members[0].0 == "_geo_distance" && BaseQuery.ScoreDesc.members[0].0 == "_score";
      assert geo != BaseQuery.ScoreDesc;
    } else if Dict.Get(spec.strings, "sort_by").None? {
      assert BaseQuery.DefaultSort[0] == BaseQuery.ScoreDesc;
    } else {
      assert SortOf(spec)[1] == BaseQuery.ScoreDesc;
    }
  }

  /** Sorting on a record field never sorts on an analysed text field, and keeps the requested direction. */
  lemma SortFieldExact(spec: Types.Spec)
    requires Types.WellFormed(spec)
    requires Dict.Get(spec.strings, "sort_by").Some? && Dict.Get(spec.strings, "sort_by") != Some(Taxonomy.Coordinates)
    ensures var f := Dict.Get(spec.strings, "sort_by").value;
            && SortOf(spec)[0] == JObj([(BaseQuery.SortField(f), BaseQuery.Order(spec.sortOrder.Name()))])
            && Taxonomy.Kind(BaseQuery.SortField(f)) != Some(Taxonomy.Text)
  {
    SortOfCases(spec);
    BaseQuery.SortFieldIsExact(Dict.Get(spec.strings, "sort_by").value);
  }

  /** The distance sort from the source's tests: pin `26.15952,-97.99084`, ascending, in miles. */
  lemma GeoDistanceSortExample()
    ensures GeoDistanceSort("26.15952,-97.99084", Types.Asc) ==
            JObj([("_geo_distance", JObj([
              ("sourceResource.spatial.coordinates", JStr("26.15952,-97.99084")),
              ("order", JStr("asc")),
              ("unit", JStr("mi"))]))])
  { }

  // The request as a whole.

  /** The `query` key holds the match clause and the `sort` key the sort. */
  lemma CompileQueryAndSort(spec: Types.Spec)
    requires Types.WellFormed(spec) && Compile(spec).Ok?
    ensures Get(Compile(spec).value, "query") == Some(QueryOf(spec))
    ensures Get(Compile(spec).value, "sort") == Some(JArr(SortOf(spec)))
  {
    CompileGetBody(spec, "query");
    CompileGetBody(spec, "sort");
    RequestBodyGet(spec);
  }

  /**
   * `_source` lists the comma-separated names of `fields`, which join back
   * into the parameter; without `fields` there is no `_source`.
   */
  lemma CompileSource(spec: Types.Spec)
    requires Types.WellFormed(spec) && Compile(spec).Ok?
    ensures Dict.Get(spec.strings, "fields").None? ==> !Has(Compile(spec).value, "_source")
    ensures Dict.Get(spec.strings, "fields").Some? ==>
              var f := Dict.Get(spec.strings, "fields").value;
              && Get(Compile(spec).value, "_source") == Some(JArr(Strings(Text.Split(f, ','))))
              && Text.Join(Text.Split(f, ','), ',') == f
  {
    CompileGetBody(spec, "_source");
    RequestBodySource(spec);
    if Dict.Get(spec.strings, "fields").Some? {
      Text.JoinSplit(Dict.Get(spec.strings, "fields").value, ',');
    }
  }

  lemma RequestBodySource(spec: Types.Spec)
    requires Types.WellFormed(spec)
    ensures Dict.Get(RequestBody(spec), "_source") == Dict.Get(SourceClause(Dict.Get(spec.strings, "fields")), "_source")
  {
    var fields := Dict.Get(spec.strings, "fields");
    Dict.GetAppend(SearchClauses(spec), SourceClause(fields), "_source");
    SearchClausesLack(spec, "_source");
  }

  lemma RequestBodyNoAggs(spec: Types.Spec)
    requires Types.WellFormed(spec)
    ensures Dict.Get(RequestBody(spec), "aggs").None?
  {
    var fields := Dict.Get(spec.strings, "fields");
    Dict.GetAppend(SearchClauses(spec), SourceClause(fields), "aggs");
    SearchClausesLack(spec, "aggs");
    assert Dict.Get(SourceClause(fields), "aggs").None?;
  }

  lemma SearchClausesLack(spec: Types.Spec, key: string)
    requires Types.WellFormed(spec) && key != "query" && key != "sort" && key != "from" && key != "size"
    ensures key !in Dict.Keys(SearchClauses(spec))
  {
    SearchClausesKeys(spec);
    Dict.KeySeqKeys(SearchClauses(spec));
  }

  /**
   * With `facets`, `aggs` holds one aggregation per facet, keyed by the
   * facet's clean name, each built by `facets_for`.
   */
  lemma CompileFacets(spec: Types.Spec)
    requires Types.WellFormed(spec) && Compile(spec).Ok? && Dict.Get(spec.strings, "facets").Some?
    ensures var names := Text.Split(Dict.Get(spec.strings, "facets").value, ',');
            && Get(Compile(spec).value, "aggs") == Some(FacetsClause(Dict.Get(spec.strings, "facets").value).value)
            && KeySet(Get(Compile(spec).value, "aggs").value) == CleanNames(names)
            && forall name :: name in names ==> FacetsFor(name).Ok?
  {
    CompileAggs(spec);
    FacetsClauseShape(Dict.Get(spec.strings, "facets").value, FacetsFor);
  }

  lemma CompileAggs(spec: Types.Spec)
    requires Types.WellFormed(spec) && Compile(spec).Ok? && Dict.Get(spec.strings, "facets").Some?
    ensures FacetsClause(Dict.Get(spec.strings, "facets").value).Ok?
    ensures Get(Compile(spec).value, "aggs") == Some(FacetsClause(Dict.Get(spec.strings, "facets").value).value)
  {
    var facets := Dict.Get(spec.strings, "facets").value;
    CompileOk(spec);
    var aggs := [("aggs", FacetsClause(facets).value)];
    Dict.GetAppend(RequestBody(spec), aggs, "aggs");
    RequestBodyNoAggs(spec);
    assert Dict.Get(aggs, "aggs") == Some(FacetsClause(facets).value);
  }

  /**
   * The request for no parameters at all: match everything, the default
   * sort, the first ten records.
   */
  lemma CompileDefaultExample()
    ensures Types.WellFormed(Types.Spec([], 1, 10, Types.Asc))
    ensures Compile(Types.Spec([], 1, 10, Types.Asc)) == Ok(JObj([
              ("query", BaseQuery.MatchAll),
              ("sort", JArr(BaseQuery.DefaultSort)),
              ("from", JInt(0)),
              ("size", JInt(10))]))
  {
    var spec := Types.Spec([], 1, 10, Types.Asc);
    assert FieldsAndConstraints([]) == ([], []);
    assert QueryOf(spec) == BaseQuery.MatchAll;
    assert SortOf(spec) == BaseQuery.DefaultSort;
    assert Dict.Get(spec.strings, "facets").None? && Dict.Get(spec.strings, "fields").None?;
    assert SourceClause(None) == [];
    assert SearchClauses(spec) == [
              ("query", BaseQuery.MatchAll),
              ("sort", JArr(BaseQuery.DefaultSort)),
              ("from", JInt(0)),
              ("size", JInt(10))];
    assert RequestBody(spec) == SearchClauses(spec) + [] == SearchClauses(spec);
  }

  /** Page 2 of 2 starts after the first two records. */
  lemma CompileFromExample()
    ensures Types.WellFormed(Types.Spec([], 2, 2, Types.Asc))
    ensures Compile(Types.Spec([], 2, 2, Types.Asc)).Ok?
    ensures Get(Compile(Types.Spec([], 2, 2, Types.Asc)).value, "from") == Some(JInt(2))
  {
    var spec := Types.Spec([], 2, 2, Types.Asc);
    assert Types.WellFormed(spec);
    assert Dict.Get(spec.strings, "facets").None?;
    CompilePagination(spec);
  }

  // From the raw parameter bag to the request body.

  /** No parameters: the default request, relevance first, from the first record. */
  lemma RequestOfNoParams()
    ensures Types.Validate([]).Ok?
    ensures Compile(Types.Validate([]).value) == Ok(JObj([
              ("query", BaseQuery.MatchAll),
              ("sort", JArr(BaseQuery.DefaultSort)),
              ("from", JInt(0)),
              ("size", JInt(10))]))
  {
    Types.ValidateNoParams();
    CompileDefaultExample();
  }

  /** `page=2&page_size=2` starts the request at record 2. */
  lemma RequestOfPageExample()
    ensures Dict.DistinctKeys([("page", "2"), ("page_size", "2")])
    ensures var r := Types.Validate([("page", "2"), ("page_size", "2")]);
            && r.Ok? && Compile(r.value).Ok?
            && Get(Compile(r.value).value, "from") == Some(JInt(2))
  {
    Types.ValidatePageExample();
    CompileFromExample();
  }

  /** `sort_by` on a keyword field sorts on it; on a text field, on its `.not_analyzed` sibling. */
  lemma RequestOfSortByExamples()
    ensures var r := Types.Validate([("sort_by", "sourceResource.type")]);
            && r.Ok? && Compile(r.value).Ok?
            && Get(Compile(r.value).value, "sort") ==
               Some(JArr([JObj([("sourceResource.type", BaseQuery.Order("asc"))]), BaseQuery.ScoreDesc]))
    ensures var r := Types.Validate([("sort_by", "sourceResource.title")]);
            && r.Ok? && Compile(r.value).Ok?
            && Get(Compile(r.value).value, "sort") ==
               Some(JArr([JObj([("sourceResource.title.not_analyzed", BaseQuery.Order("asc"))]), BaseQuery.ScoreDesc]))
  {
    Types.ValidateSortByExamples();
    BaseQuery.SingleFieldSortExamples();
    var byType := Types.Spec([("sort_by", "sourceResource.type")], 1, 10, Types.Asc);
    var byTitle := Types.Spec([("sort_by", "sourceResource.title")], 1, 10, Types.Asc);
    SortedRequest(byType);
    SortOfCases(byType);
    SortedRequest(byTitle);
    SortOfCases(byTitle);
  }

  /** `sort_by` on the coordinates with a pin sorts by distance from the pin alone. */
  lemma RequestOfGeoSortExample()
    ensures Dict.DistinctKeys([("sort_by", Taxonomy.Coordinates), ("sort_by_pin", "26.15952,-97.99084")])
    ensures var r := Types.Validate([("sort_by", Taxonomy.Coordinates), ("sort_by_pin", "26.15952,-97.99084")]);
            && r.Ok? && Compile(r.value).Ok?
            && Get(Compile(r.value).value, "sort") == Some(JArr([
                 JObj([("_geo_distance", JObj([
                   ("sourceResource.spatial.coordinates", JStr("26.15952,-97.99084")),
                   ("order", JStr("asc")),
                   ("unit", JStr("mi"))]))])]))
  {
    Types.ValidateGeoSortExample();
    GeoDistanceSortExample();
    var spec := Types.Spec([("sort_by", Taxonomy.Coordinates), ("sort_by_pin", "26.15952,-97.99084")], 1, 10, Types.Asc);
    SortedRequest(spec);
    SortOfCases(spec);
  }

  /** A mapping without facets compiles, and its `sort` key holds the sort rule's answer. */
  lemma SortedRequest(spec: Types.Spec)
    requires Types.WellFormed(spec) && Dict.Get(spec.strings, "facets").None?
    ensures Compile(spec).Ok?
    ensures Get(Compile(spec).value, "sort") == Some(JArr(SortOf(spec)))
  {
    CompileQueryAndSort(spec);
  }
}
