/**
 * The read-only field table of the catalog: which record fields exist, what
 * kind each is, and the boost each one carries in a free-text search.
 * Only the fields that the query code's behaviour is pinned on are listed.
 */
module Taxonomy {
  import opened Wrappers
  import Dict

  /**
   * Text fields are analysed (tokenised) for search and have an exact-match
   * `.not_analyzed` sibling; keyword fields are already exact.
   */
  datatype FieldKind = Keyword | Text | Date | GeoPoint

  const TextFields: set<string> := {
    "sourceResource.title", "sourceResource.description",
    "sourceResource.subject.name", "sourceResource.collection.title",
    "sourceResource.collection.description", "sourceResource.contributor",
    "sourceResource.creator", "sourceResource.extent", "sourceResource.format",
    "sourceResource.language.name", "sourceResource.publisher",
    "sourceResource.relation", "sourceResource.spatial.name",
    "sourceResource.specType", "dataProvider", "intermediateProvider",
    "provider.name"
  }

  const KeywordFields: set<string> := {"id", "rights", "hasView.@id", "sourceResource.type"}

  const DateField: string := "sourceResource.date.begin"

  /** The one geo-point field; sorting on it needs a pin. */
  const Coordinates: string := "sourceResource.spatial.coordinates"

  /** The field descriptor lookup: exact, case-sensitive, None for an unknown name. */
  function Kind(name: string): Option<FieldKind> {
    if name in TextFields then Some(Text)
    else if name in KeywordFields then Some(Keyword)
    else if name == DateField then Some(Date)
    else if name == Coordinates then Some(GeoPoint)
    else None
  }

  /** The date field and the geo-point field have kinds of their own, and no `:` in their names. */
  lemma SpecialFieldKinds()
    ensures Kind(DateField) == Some(Date) && ':' !in DateField
    ensures Kind(Coordinates) == Some(GeoPoint) && ':' !in Coordinates
  {
  }

  /** The exact-match sibling of a text field. */
  function NotAnalyzed(name: string): string {
    name + ".not_analyzed"
  }

  /**
   * The boost table of the free-text query, in its order: field name to boost
   * (None would mean "not searched"). Rendered as `name^boost`.
   */
  const Boosts: Dict.Assoc<Option<string>> := [
    ("sourceResource.title", Some("2")),
    ("sourceResource.description", Some("0.75")),
    ("sourceResource.subject.name", Some("1")),
    ("sourceResource.collection.title", Some("1")),
    ("sourceResource.collection.description", Some("1")),
    ("sourceResource.contributor", Some("1")),
    ("sourceResource.creator", Some("1")),
    ("sourceResource.extent", Some("1")),
    ("sourceResource.format", Some("1")),
    ("sourceResource.language.name", Some("1")),
    ("sourceResource.publisher", Some("1")),
    ("sourceResource.relation", Some("1")),
    ("sourceResource.spatial.name", Some("1")),
    ("sourceResource.specType", Some("1")),
    ("sourceResource.type", Some("1")),
    ("dataProvider", Some("1")),
    ("intermediateProvider", Some("1")),
    ("provider.name", Some("1"))
  ]

  /** The boost registered for a field, None when there is none. */
  function Boost(name: string): Option<string> {
    match Dict.Get(Boosts, name)
    case None => None
    case Some(b) => b
  }
}
