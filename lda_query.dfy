/**
 * The cosine-similarity query on a record's LDA vector (`LDAQuery`): a
 * request skeleton that scores every record by its similarity to a query
 * vector, filled in with the vector, the returned fields, the page and an
 * optional sort.
 */
module LdaQuery {
  import opened Wrappers
  import opened Json
  import Dict
  import Text
  import Types
  import BaseQuery

  /**
   * The parameters the constructor reads. `vector` is copied through
   * unchanged, so its contents are left opaque.
   */
  datatype LdaParams = LdaParams(
    vector: Json,
    fields: Option<string>,
    page: int,
    pageSize: int,
    sortBy: Option<string>,
    sortOrder: Types.SortOrder)

  /** The scoring script: the cosine of the query vector and the record's `ldaVector`. */
  const ScriptSource: string := "cosineSimilarity(params.queryVector, doc.ldaVector)"

  /** `{source: ..., params: {queryVector: vector}}`. */
  function Script(vector: Json): Json {
    JObj([("source", JStr(ScriptSource)), ("params", JObj([("queryVector", vector)]))])
  }

  /** Every record, scored by the script. */
  function ScriptScore(vector: Json): Json {
    JObj([("script_score", JObj([("query", BaseQuery.MatchAll), ("script", Script(vector))]))])
  }

  /** The skeleton with `vector` in place of the query vector; the default sort. */
  function Skeleton(vector: Json): Json {
    JObj([("query", ScriptScore(vector)), ("sort", JArr(BaseQuery.DefaultSort))])
  }

  /** `query_skel`: an empty query vector. */
  const QuerySkel: Json := Skeleton(JArr([]))

  /** Where the skeleton keeps the query vector. */
  const VectorPath: seq<string> := ["query", "script_score", "script", "params", "queryVector"]

  /** The path the constructor assigns the vector to, which skips `script_score`. */
  const VectorPathAsWritten: seq<string> := ["query", "script", "params", "queryVector"]

  /** `params['fields'].split(',')`. */
  function SourceOf(fields: string): Json {
    JArr(Strings(Text.Split(fields, ',')))
  }

  /** The sort of the request: the skeleton's default, or the requested field then relevance. */
  function SortOf(p: LdaParams): seq<Json> {
    match p.sortBy
    case None => BaseQuery.DefaultSort
    case Some(f) => BaseQuery.SingleFieldSort(f, p.sortOrder)
  }

  /**
   * The finished request body, in the key order a Python dict gives it:
   * `query` and `sort` from the skeleton, then `_source` when `fields` was
   * given, then `from` and `size`.
   */
  function SimilarityQuery(p: LdaParams): (r: Json)
    ensures r.JObj? && Get(r, "query") == Some(ScriptScore(p.vector))
  {
    JObj([("query", ScriptScore(p.vector)), ("sort", JArr(SortOf(p)))] + SourcePart(p) + PagePart(p))
  }

  /**
   * The constructor as written: the assignment of line 50 reads
   * `query.script`, which the skeleton does not have, so every call raises
   * (None) before anything else is written.
   */
  function InitAsWritten(p: LdaParams): Option<Json> {
    match SetPath(QuerySkel, VectorPathAsWritten, p.vector)
    case None => None
    case Some(withVector) => Some(Assemble(withVector, p))
  }

  /**
   * The writes after the vector's: `_source` when `fields` was given,
   * `from` and `size`, then the sort when `sort_by` was given.
   */
  function Assemble(withVector: Json, p: LdaParams): Json
    requires withVector.JObj?
  {
    AddSort(AddPage(AddSource(withVector, p), p), p)
  }

  /** `query['_source'] = params['fields'].split(',')` when `fields` was given. */
  function AddSource(o: Json, p: LdaParams): (r: Json)
    requires o.JObj?
    ensures r.JObj?
  {
    if p.fields.Some? then Put(o, "_source", SourceOf(p.fields.value)) else o
  }

  /** The number of records on the earlier pages: `(page - 1) * page_size`. */
  function Offset(p: LdaParams): int {
    (p.page - 1) * p.pageSize
  }

  /** `query['from']` and `query['size']` from the page and the page size. */
  function AddPage(o: Json, p: LdaParams): (r: Json)
    requires o.JObj?
    ensures r.JObj?
  {
    Put(Put(o, "from", JInt(Offset(p))), "size", JInt(p.pageSize))
  }

  /** `add_sort_clause` when `sort_by` was given. */
  function AddSort(o: Json, p: LdaParams): (r: Json)
    requires o.JObj?
    ensures r.JObj?
  {
    if p.sortBy.Some? then Put(o, "sort", JArr(BaseQuery.SingleFieldSort(p.sortBy.value, p.sortOrder))) else o
  }

  /** `LDAQuery`: the request body under construction. */
  class LdaQuery {
    var query: Json

    /**
     * `LDAQuery(params)`, writing the vector along the skeleton's
     * `script_score` path. Each write lands where the source puts it, and
     * the result is the reference body.
     */
    constructor (p: LdaParams)
      ensures query == SimilarityQuery(p)
      ensures GetPath(query, VectorPath) == Some(p.vector)
      ensures p.fields.Some? ==> Get(query, "_source") == Some(SourceOf(p.fields.value))
      ensures p.fields.None? ==> Get(query, "_source").None?
      ensures Get(query, "from") == Some(JInt(Offset(p)))
      ensures Get(query, "size") == Some(JInt(p.pageSize))
      ensures Get(query, "sort") == Some(JArr(SortOf(p)))
    {
      query := QuerySkel;
      new;
      SetVectorInSkeleton(JArr([]), p.vector);
      query := SetPath(query, VectorPath, p.vector).value;
      ghost var withVector := query;
      if p.fields.Some? {
        query := Put(query, "_source", SourceOf(p.fields.value));
      }
      assert query == AddSource(withVector, p);
      ghost var withSource := query;
      query := Put(query, "from", JInt(Offset(p)));
      query := Put(query, "size", JInt(p.pageSize));
      assert query == AddPage(withSource, p);
      ghost var paged := query;
      if p.sortBy.Some? {
        AddSortClause(p.sortBy.value, p.sortOrder);
      }
      assert query == AddSort(paged, p);
      AssembleSkeleton(p);
      SimilarityVector(p);
      SimilarityLookups(p);
    }

    /** `add_sort_clause`: the sort becomes the requested field, then relevance; the rest stays. */
    method AddSortClause(field: string, order: Types.SortOrder)
      requires query.JObj?
      modifies this
      ensures query == Put(old(query), "sort", JArr(BaseQuery.SingleFieldSort(field, order)))
    {
      query := Put(query, "sort", JArr(BaseQuery.SingleFieldSort(field, order)));
    }
  }

  /** The writes after the vector's turn the skeleton into the reference body. */
  lemma AssembleSkeleton(p: LdaParams)
    ensures Assemble(Skeleton(p.vector), p) == SimilarityQuery(p)
  {
    var head := [("query", ScriptScore(p.vector)), ("sort", JArr(BaseQuery.DefaultSort))];
    var source := SourcePart(p);
    var page := PagePart(p);
    assert AddSource(Skeleton(p.vector), p) == JObj(head + source) by {
      AddSourceToSkeleton(p);
    }
    assert AddPage(JObj(head + source), p) == JObj(head + source + page) by {
      var ms := head + source;
      assert forall i :: 0 <= i < |ms| ==> ms[i].0 in {"query", "sort", "_source"} by {
        if p.fields.Some? {
          assert ms == [head[0], head[1], source[0]];
        } else {
          assert ms == head;
        }
      }
      AddPageAppends(ms, p);
    }
    Dict.AppendAssoc(head, source, page);
    AddSortSecond(p, ScriptScore(p.vector), source + page);
    SimilarityQuerySplit(p);
  }

  /** The `_source` entry, when `fields` was given. */
  function SourcePart(p: LdaParams): Dict.Assoc<Json> {
    if p.fields.Some? then [("_source", SourceOf(p.fields.value))] else []
  }

  /** The `from` and `size` entries. */
  function PagePart(p: LdaParams): Dict.Assoc<Json> {
    [("from", JInt(Offset(p))), ("size", JInt(p.pageSize))]
  }

  /** `_source` is new to the skeleton, so it lands after `sort`. */
  lemma AddSourceToSkeleton(p: LdaParams)
    ensures AddSource(Skeleton(p.vector), p)
            == JObj([("query", ScriptScore(p.vector)), ("sort", JArr(BaseQuery.DefaultSort))] + SourcePart(p))
  {
    var head := [("query", ScriptScore(p.vector)), ("sort", JArr(BaseQuery.DefaultSort))];
    if p.fields.Some? {
      Dict.PutNew(head, "_source", SourceOf(p.fields.value));
    } else {
      assert head + [] == head;
    }
  }

  /** `from` and `size` are new, so they land at the end in that order. */
  lemma AddPageAppends(ms: Dict.Assoc<Json>, p: LdaParams)
    requires forall i :: 0 <= i < |ms| ==> ms[i].0 != "from" && ms[i].0 != "size"
    ensures AddPage(JObj(ms), p) == JObj(ms + PagePart(p))
  {
    var from := JInt(Offset(p));
    var size := JInt(p.pageSize);
    var o1 := Put(JObj(ms), "from", from);
    assert o1 == JObj(Dict.Put(ms, "from", from)) by { PutMembers(JObj(ms), "from", from); }
    assert Put(o1, "size", size) == JObj(Dict.Put(o1.members, "size", size)) by { PutMembers(o1, "size", size); }
    assert Dict.Put(Dict.Put(ms, "from", from), "size", size) == ms + PagePart(p) by { Dict.PutTwoNew(ms, "from", from, "size", size); }
  }

  /** The sort replaces the second entry in place. */
  lemma AddSortSecond(p: LdaParams, q: Json, rest: Dict.Assoc<Json>)
    ensures AddSort(JObj([("query", q), ("sort", JArr(BaseQuery.DefaultSort))] + rest), p)
            == JObj([("query", q), ("sort", JArr(SortOf(p)))] + rest)
  {
    var ms := [("query", q), ("sort", JArr(BaseQuery.DefaultSort))] + rest;
    if p.sortBy.Some? {
      Dict.PutSecond(ms, JArr(BaseQuery.SingleFieldSort(p.sortBy.value, p.sortOrder)));
      assert ms[2..] == rest;
    }
  }

  /** The reference body, with its tail grouped as the constructor builds it. */
  lemma SimilarityQuerySplit(p: LdaParams)
    ensures SimilarityQuery(p).members ==
              [("query", ScriptScore(p.vector)), ("sort", JArr(SortOf(p)))] + (SourcePart(p) + PagePart(p))
  {
    Dict.AppendAssoc([("query", ScriptScore(p.vector)), ("sort", JArr(SortOf(p)))], SourcePart(p), PagePart(p));
  }

  // Properties of the skeleton and of the path bug.

  /** Assigning along the skeleton's own path swaps the vector and changes nothing else. */
  lemma SetVectorInSkeleton(prior: Json, vector: Json)
    ensures SetPath(Skeleton(prior), VectorPath, vector) == Some(Skeleton(vector))
  {
    var path := VectorPath;
    var skel := Skeleton(prior);
    assert path[1..] == ["script_score", "script", "params", "queryVector"];
    SetScriptScoreVector(prior, vector);
    assert Get(skel, "query") == Some(ScriptScore(prior));
    SetPathStep(skel, path, vector, ScriptScore(prior), ScriptScore(vector));
    var ms := skel.members;
    Dict.PutFirst(ms, ScriptScore(vector));
    assert ms[1..] == [("sort", JArr(BaseQuery.DefaultSort))];
    assert Dict.Put(ms, "query", ScriptScore(vector)) == [("query", ScriptScore(vector)), ("sort", JArr(BaseQuery.DefaultSort))];
    assert Put(skel, "query", ScriptScore(vector)) == Skeleton(vector);
  }

  lemma SetScriptScoreVector(prior: Json, vector: Json)
    ensures SetPath(ScriptScore(prior), ["script_score", "script", "params", "queryVector"], vector)
            == Some(ScriptScore(vector))
  {
    var path := ["script_score", "script", "params", "queryVector"];
    var inner := JObj([("query", BaseQuery.MatchAll), ("script", Script(prior))]);
    assert path[1..] == ["script", "params", "queryVector"] && path[1..][1..] == ["params", "queryVector"];
    SetScriptVector(prior, vector);
    assert Get(inner, "script") == Some(Script(prior));
    SetPathStep(inner, path[1..], vector, Script(prior), Script(vector));
    var ms := inner.members;
    Dict.PutSecond(ms, Script(vector));
    assert ms[2..] == [];
    assert Dict.Put(ms, "script", Script(vector)) == [ms[0], ("script", Script(vector))];
    var inner' := JObj([("query", BaseQuery.MatchAll), ("script", Script(vector))]);
    assert Put(inner, "script", Script(vector)) == inner';
    SetPathStep(ScriptScore(prior), path, vector, inner, inner');
    var top := ScriptScore(prior).members;
    Dict.PutFirst(top, inner');
    assert top[1..] == [];
    assert Dict.Put(top, "script_score", inner') == [("script_score", inner')];
    assert Put(ScriptScore(prior), "script_score", inner') == ScriptScore(vector);
  }

  lemma SetScriptVector(prior: Json, vector: Json)
    ensures SetPath(Script(prior), ["params", "queryVector"], vector) == Some(Script(vector))
  {
    var path := ["params", "queryVector"];
    var params := JObj([("queryVector", prior)]);
    var params' := JObj([("queryVector", vector)]);
    assert path[1..] == ["queryVector"];
    SetQueryVector(prior, vector);
    assert Get(Script(prior), "params") == Some(params);
    SetPathStep(Script(prior), path, vector, params, params');
    var ms := Script(prior).members;
    Dict.PutSecond(ms, params');
    assert ms[2..] == [];
    assert Dict.Put(ms, "params", params') == [ms[0], ("params", params')];
    assert Put(Script(prior), "params", params') == Script(vector);
  }

  lemma SetQueryVector(prior: Json, vector: Json)
    ensures SetPath(JObj([("queryVector", prior)]), ["queryVector"], vector) == Some(JObj([("queryVector", vector)]))
  {
    var ms := [("queryVector", prior)];
    Dict.PutFirst(ms, vector);
    assert ms[1..] == [];
    assert Put(JObj(ms), "queryVector", vector) == JObj([("queryVector", vector)]);
  }

  /**
   * As written, the constructor never succeeds: the skeleton's `query` holds
   * only `script_score`, so reading `script` under it fails, whatever the
   * parameters.
   */
  lemma InitAsWrittenFails(p: LdaParams)
    ensures InitAsWritten(p).None?
    ensures Get(QuerySkel, "query").Some? && Get(Get(QuerySkel, "query").value, "script").None?
    ensures SetPath(QuerySkel, VectorPathAsWritten, p.vector).None?
  {
    var path := VectorPathAsWritten;
    assert Get(QuerySkel, "query") == Some(ScriptScore(JArr([])));
    assert Get(ScriptScore(JArr([])), "script").None?;
    SetPathDefined(QuerySkel, path, p.vector);
    assert path[..|path| - 1] == ["query", "script", "params"];
    assert GetPath(QuerySkel, ["query", "script", "params"]).None? by {
      assert ["query", "script", "params"][1..] == ["script", "params"];
      assert GetPath(ScriptScore(JArr([])), ["script", "params"]).None?;
    }
  }

  // Properties of the finished request.

  /** The stored vector is the one passed in: it reads back along the skeleton's path. */
  lemma SimilarityVector(p: LdaParams)
    ensures GetPath(SimilarityQuery(p), VectorPath) == Some(p.vector)
  {
    var q := SimilarityQuery(p);
    var inner := JObj([("query", BaseQuery.MatchAll), ("script", Script(p.vector))]);
    var path := VectorPath;
    assert Get(q, "query") == Some(ScriptScore(p.vector));
    assert Get(ScriptScore(p.vector), "script_score") == Some(inner);
    assert Get(inner, "script") == Some(Script(p.vector));
    assert Get(Script(p.vector), "params") == Some(JObj([("queryVector", p.vector)]));
    assert Get(JObj([("queryVector", p.vector)]), "queryVector") == Some(p.vector);
    assert path[1..][1..][1..][1..][1..] == [];
  }

  /** Every record is scored, by the fixed cosine-similarity script. */
  lemma SimilarityScoresEverything(p: LdaParams)
    ensures GetPath(SimilarityQuery(p), ["query", "script_score", "query"]) == Some(BaseQuery.MatchAll)
    ensures GetPath(SimilarityQuery(p), ["query", "script_score", "script", "source"]) == Some(JStr(ScriptSource))
  {
    var q := SimilarityQuery(p);
    var inner := JObj([("query", BaseQuery.MatchAll), ("script", Script(p.vector))]);
    assert Get(q, "query") == Some(ScriptScore(p.vector));
    assert Get(ScriptScore(p.vector), "script_score") == Some(inner);
    assert Get(inner, "query") == Some(BaseQuery.MatchAll);
    assert Get(inner, "script") == Some(Script(p.vector));
    assert Get(Script(p.vector), "source") == Some(JStr(ScriptSource));
    var a := ["query", "script_score", "query"];
    assert a[1..] == ["script_score", "query"] && a[1..][1..] == ["query"] && a[1..][1..][1..] == [];
    var b := ["query", "script_score", "script", "source"];
    assert b[1..] == ["script_score", "script", "source"] && b[1..][1..] == ["script", "source"];
    assert b[1..][1..][1..] == ["source"] && b[1..][1..][1..][1..] == [];
  }

  /**
   * The body holds `query` and `sort`, then `_source` exactly when `fields`
   * was given, then `from` and `size`: nothing else, and no key twice.
   */
  lemma SimilarityKeys(p: LdaParams)
    ensures SimilarityQuery(p).JObj?
    ensures Dict.KeySeq(SimilarityQuery(p).members) ==
              ["query", "sort"] + (if p.fields.Some? then ["_source"] else []) + ["from", "size"]
    ensures Dict.DistinctKeys(SimilarityQuery(p).members)
  {
    var ms := SimilarityQuery(p).members;
    var keys := ["query", "sort"] + (if p.fields.Some? then ["_source"] else []) + ["from", "size"];
    if p.fields.Some? {
      assert keys == ["query", "sort", "_source", "from", "size"];
      assert |ms| == 5 && ms[0].0 == "query" && ms[1].0 == "sort" && ms[2].0 == "_source";
      assert ms[3].0 == "from" && ms[4].0 == "size";
    } else {
      assert keys == ["query", "sort", "from", "size"];
      assert |ms| == 4 && ms[0].0 == "query" && ms[1].0 == "sort" && ms[2].0 == "from" && ms[3].0 == "size";
    }
    assert Dict.KeySeq(ms) == keys;
    Dict.DistinctKeySeq(ms, keys);
  }

  /** The four looked-up values of the body. */
  lemma SimilarityLookups(p: LdaParams)
    ensures Get(SimilarityQuery(p), "sort") == Some(JArr(SortOf(p)))
    ensures p.fields.Some? ==> Get(SimilarityQuery(p), "_source") == Some(SourceOf(p.fields.value))
    ensures p.fields.None? ==> Get(SimilarityQuery(p), "_source").None?
    ensures Get(SimilarityQuery(p), "from") == Some(JInt(Offset(p)))
    ensures Get(SimilarityQuery(p), "size") == Some(JInt(p.pageSize))
  {
    if p.fields.Some? {
      LookupsWithSource(p);
    } else {
      LookupsWithoutSource(p);
    }
  }

  lemma LookupsWithSource(p: LdaParams)
    requires p.fields.Some?
    ensures Get(SimilarityQuery(p), "sort") == Some(JArr(SortOf(p)))
    ensures Get(SimilarityQuery(p), "_source") == Some(SourceOf(p.fields.value))
    ensures Get(SimilarityQuery(p), "from") == Some(JInt(Offset(p)))
    ensures Get(SimilarityQuery(p), "size") == Some(JInt(p.pageSize))
  {
    SimilarityKeys(p);
    var ms := SimilarityQuery(p).members;
    assert ms[1] == ("sort", JArr(SortOf(p))) && ms[2] == ("_source", SourceOf(p.fields.value));
    assert ms[3] == ("from", JInt(Offset(p))) && ms[4] == ("size", JInt(p.pageSize));
    Dict.GetDistinct(ms, 1);
    Dict.GetDistinct(ms, 2);
    Dict.GetDistinct(ms, 3);
    Dict.GetDistinct(ms, 4);
  }

  lemma LookupsWithoutSource(p: LdaParams)
    requires p.fields.None?
    ensures Get(SimilarityQuery(p), "sort") == Some(JArr(SortOf(p)))
    ensures Get(SimilarityQuery(p), "_source").None?
    ensures Get(SimilarityQuery(p), "from") == Some(JInt(Offset(p)))
    ensures Get(SimilarityQuery(p), "size") == Some(JInt(p.pageSize))
  {
    SimilarityKeys(p);
    var ms := SimilarityQuery(p).members;
    assert ms[1] == ("sort", JArr(SortOf(p)));
    assert ms[2] == ("from", JInt(Offset(p))) && ms[3] == ("size", JInt(p.pageSize));
    Dict.GetDistinct(ms, 1);
    Dict.GetDistinct(ms, 2);
    Dict.GetDistinct(ms, 3);
    assert |ms| == 4 && ms[0].0 == "query";
    Dict.NotInKeys(ms, "_source");
  }

  /**
   * `_source` is `fields` split at the commas, and joining it back gives
   * `fields`; without `fields` there is no `_source`.
   */
  lemma SimilaritySource(p: LdaParams)
    ensures p.fields.Some? ==>
              && Get(SimilarityQuery(p), "_source") == Some(JArr(Strings(Text.Split(p.fields.value, ','))))
              && Text.Join(Text.Split(p.fields.value, ','), ',') == p.fields.value
    ensures p.fields.None? ==> !Has(SimilarityQuery(p), "_source")
  {
    SimilarityLookups(p);
    if p.fields.Some? {
      Text.JoinSplit(p.fields.value, ',');
    }
  }

  /** `from` skips the earlier pages and is never negative from the first page on. */
  lemma SimilarityPage(p: LdaParams)
    ensures Get(SimilarityQuery(p), "from") == Some(JInt((p.page - 1) * p.pageSize))
    ensures Get(SimilarityQuery(p), "size") == Some(JInt(p.pageSize))
    ensures p.page >= 1 && p.pageSize >= 0 ==> (p.page - 1) * p.pageSize >= 0
  {
    SimilarityLookups(p);
    OffsetIsProduct(p);
  }

  /** Offset, unfolded where the solver can see the product on its own. */
  lemma OffsetIsProduct(p: LdaParams)
    ensures JInt(Offset(p)) == JInt((p.page - 1) * p.pageSize)
    ensures p.page >= 1 && p.pageSize >= 0 ==> Offset(p) >= 0
  { }

  /**
   * Without `sort_by` the sort stays the skeleton's default; with it, the
   * requested field (its exact sibling for a text field) comes first and
   * relevance second.
   */
  lemma SimilaritySort(p: LdaParams)
    ensures p.sortBy.None? ==> Get(SimilarityQuery(p), "sort") == Some(JArr(BaseQuery.DefaultSort))
    ensures p.sortBy.Some? ==>
              && Get(SimilarityQuery(p), "sort") == Some(JArr(BaseQuery.SingleFieldSort(p.sortBy.value, p.sortOrder)))
              && BaseQuery.SingleFieldSort(p.sortBy.value, p.sortOrder)[1] == BaseQuery.ScoreDesc
  {
    SimilarityLookups(p);
  }
}
