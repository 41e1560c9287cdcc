/**
 * The sort rule both query strategies share (`BaseQuery.add_sort_clause`):
 * relevance first by default, or one requested field followed by relevance.
 */
module BaseQuery {
  import opened Wrappers
  import opened Json
  import Taxonomy
  import Types

  /** The query that matches every record. */
  const MatchAll: Json := JObj([("match_all", JObj([]))])

  function Order(order: string): Json {
    JObj([("order", JStr(order))])
  }

  /** The relevance tiebreak `{_score: {order: desc}}`. */
  const ScoreDesc: Json := JObj([("_score", Order("desc"))])

  /** The sort when none is requested: relevance, then id ascending. */
  const DefaultSort: seq<Json> := [ScoreDesc, JObj([("id", Order("asc"))])]

  /** The field the backend sorts on: an analysed text field is replaced by its exact sibling. */
  function SortField(field: string): string {
    if Taxonomy.Kind(field) == Some(Taxonomy.Text) then Taxonomy.NotAnalyzed(field) else field
  }

  /**
   * The single-field sort: one key, the requested field or its exact
   * sibling, in the requested direction; then relevance as the tiebreak.
   */
  function SingleFieldSort(field: string, order: Types.SortOrder): (r: seq<Json>)
    ensures |r| == 2 && r[1] == ScoreDesc
    ensures r[0].JObj? && |r[0].members| == 1 && r[0].members[0].1 == Order(order.Name())
    ensures Taxonomy.Kind(r[0].members[0].0) != Some(Taxonomy.Text)
    ensures Taxonomy.Kind(field) != Some(Taxonomy.Text) ==> r[0].members[0].0 == field
    ensures Taxonomy.Kind(field) == Some(Taxonomy.Text) ==> r[0].members[0].0 == field + ".not_analyzed"
  {
    SortFieldIsExact(field);
    [JObj([(SortField(field), Order(order.Name()))]), ScoreDesc]
  }

  /** The backend is never asked to sort on an analysed text field. */
  lemma {:induction false} SortFieldIsExact(field: string)
    ensures Taxonomy.Kind(SortField(field)) != Some(Taxonomy.Text)
    ensures Taxonomy.Kind(field) != Some(Taxonomy.Text) ==> SortField(field) == field
  {
    if Taxonomy.Kind(field) == Some(Taxonomy.Text) {
      var s := Taxonomy.NotAnalyzed(field);
      assert |s| == |field| + 13;
      assert s[|s| - 13..] == ".not_analyzed";
    }
  }

  /** Sorting on a keyword field uses it as is; on a text field, its `.not_analyzed` sibling. */
  lemma SingleFieldSortExamples()
    ensures SingleFieldSort("sourceResource.type", Types.Asc) ==
            [JObj([("sourceResource.type", Order("asc"))]), ScoreDesc]
    ensures SingleFieldSort("sourceResource.title", Types.Asc) ==
            [JObj([("sourceResource.title.not_analyzed", Order("asc"))]), ScoreDesc]
  {
    assert Taxonomy.NotAnalyzed("sourceResource.title") == "sourceResource.title.not_analyzed";
  }
}
