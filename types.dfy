/**
 * The parameter validator of the `/v2/items` endpoint (`ItemsQueryType`):
 * turns the flat query-string bag into the validated mapping the query
 * compiler reads, applying defaults and the page-size clamp and rejecting
 * unknown names and malformed values.
 */
module Types {
  import opened Wrappers
  import Dict
  import Text
  import Taxonomy

  /** The query-string parameters, one entry per key. */
  type Params = Dict.Assoc<string>

  datatype SortOrder = Asc | Desc {
    /** The literal the backend expects. */
    function Name(): string {
      if Asc? then "asc" else "desc"
    }
  }

  datatype Reason =
    | UnknownParameter
    | TooShort
    | NotAUrl
    | NotAnInteger
    | OutOfRange
    | BadSortOrder
    | UnknownField
    | BadPin
    | PastResultWindow
    | MissingPin
    | BadFacet

  /** The one error kind attributable to caller input; `param` names the offending parameter. */
  datatype ValidationError = ValidationError(param: string, reason: Reason)

  /** The parameters that steer the query rather than constrain a record field. */
  const ControlParams: set<string> := {
    "q", "fields", "exact_field_match", "facets", "page", "page_size",
    "sort_by", "sort_by_pin", "sort_order"
  }

  /** The parameters the validator turns into numbers or an enumeration. */
  const TypedParams: set<string> := {"page", "page_size", "sort_order"}

  const DefaultPage: nat := 1
  const DefaultPageSize: nat := 10
  const MaxPageSize: nat := 500
  /** The deepest result a page may reach: `page * page_size` may not exceed it. */
  const MaxResultWindow: nat := 50000
  const MinQueryLength: nat := 2

  /** The closed parameter set: control parameters and the catalog's record fields. */
  predicate KnownParam(name: string) {
    name in ControlParams || Taxonomy.Kind(name).Some?
  }

  /** The URL shape required of `rights` (the exact pattern is not part of this model). */
  predicate IsUrl(s: string) {
    || "http://" < s
    || "https://" < s
  }

  /** A geo pin `lat,lon`: two non-empty comma-separated parts. */
  predicate IsPin(s: string) {
    var parts := Text.Split(s, ',');
    |parts| == 2 && parts[0] != "" && parts[1] != ""
  }

  /** The check of one parameter on its own; None when it passes. */
  function CheckParam(name: string, value: string): Option<ValidationError> {
    if !KnownParam(name) then Some(ValidationError(name, UnknownParameter))
    else if name == "q" && |value| < MinQueryLength then Some(ValidationError(name, TooShort))
    else if name == "rights" && !IsUrl(value) then Some(ValidationError(name, NotAUrl))
    else if (name == "page" || name == "page_size") && Text.ParseNat(value).None? then
      Some(ValidationError(name, NotAnInteger))
    else if (name == "page" || name == "page_size") && Text.ParseNat(value).value < 1 then
      Some(ValidationError(name, OutOfRange))
    else if name == "sort_order" && value != "asc" && value != "desc" then
      Some(ValidationError(name, BadSortOrder))
    else if name == "sort_by" && Taxonomy.Kind(value).None? then Some(ValidationError(name, UnknownField))
    else if name == "sort_by_pin" && !IsPin(value) then Some(ValidationError(name, BadPin))
    else None
  }

  /** The error of the first parameter, in order, that fails its own check. */
  function FirstError(raw: Params): (r: Option<ValidationError>)
    ensures r.None? <==> forall i :: 0 <= i < |raw| ==> CheckParam(raw[i].0, raw[i].1).None?
    ensures r.Some? ==> exists i :: 0 <= i < |raw| && FailsFirst(raw, i) && r == CheckParam(raw[i].0, raw[i].1)
    ensures r.Some? ==> r.value.param in Dict.Keys(raw)
  {
    if raw == [] then None
    else match CheckParam(raw[0].0, raw[0].1)
      case Some(e) =>
        assert FailsFirst(raw, 0);
        Some(e)
      case None =>
        var rest := FirstError(raw[1..]);
        assert rest.Some? ==> exists i :: 0 <= i < |raw| && FailsFirst(raw, i) && rest == CheckParam(raw[i].0, raw[i].1) by {
          if rest.Some? {
            var k :| 0 <= k < |raw[1..]| && FailsFirst(raw[1..], k) && rest == CheckParam(raw[1..][k].0, raw[1..][k].1);
            assert FailsFirst(raw, k + 1) by {
              forall j | 0 <= j < k + 1 ensures CheckParam(raw[j].0, raw[j].1).None? {
                if j > 0 { assert raw[j] == raw[1..][j - 1]; }
              }
            }
          }
        }
        rest
  }

  /** Entry `i` fails its check and every entry before it passes. */
  predicate FailsFirst(raw: Params, i: nat)
    requires i < |raw|
  {
    && CheckParam(raw[i].0, raw[i].1).Some?
    && forall j :: 0 <= j < i ==> CheckParam(raw[j].0, raw[j].1).None?
  }

  /** The number given for `name`, or `default` when it is absent. */
  function NumberOr(raw: Params, name: string, default: nat): nat {
    match Dict.Get(raw, name)
    case None => default
    case Some(v) => match Text.ParseNat(v) case None => default case Some(n) => n
  }

  /** The legacy page-size rule: above the maximum is cut down to it, never an error. */
  function ClampPageSize(n: nat): nat {
    if n > MaxPageSize then MaxPageSize else n
  }

  /** The entries that stay strings: everything but `page`, `page_size` and `sort_order`. */
  function Untyped(raw: Params): (r: Params)
    ensures forall k :: k !in TypedParams ==> Dict.Get(r, k) == Dict.Get(raw, k)
    ensures forall k :: k in TypedParams ==> Dict.Get(r, k).None?
    ensures Dict.Keys(r) <= Dict.Keys(raw)
    ensures Dict.DistinctKeys(raw) ==> Dict.DistinctKeys(r)
  {
    if raw == [] then []
    else
      var rest := Untyped(raw[1..]);
      if raw[0].0 in TypedParams then rest
      else
        assert Dict.DistinctKeys(raw) ==> Dict.DistinctKeys([raw[0]] + rest) by {
          if Dict.DistinctKeys(raw) {
            Dict.DistinctTail(raw);
            Dict.DistinctCons(raw[0], rest);
          }
        }
        [raw[0]] + rest
  }

  /** The validated mapping: string parameters plus the typed page, page size and sort order. */
  datatype Spec = Spec(strings: Params, page: nat, pageSize: nat, sortOrder: SortOrder)

  /** What every validated mapping satisfies, and what the compiler relies on. */
  predicate WellFormed(s: Spec) {
    && Dict.DistinctKeys(s.strings)
    && 1 <= s.page
    && 1 <= s.pageSize <= MaxPageSize
    && s.page * s.pageSize <= MaxResultWindow
    && (Dict.Get(s.strings, "sort_by") == Some(Taxonomy.Coordinates) ==>
          Dict.Get(s.strings, "sort_by_pin").Some?)
  }

  /** A value of `sort_order` that passed its check is one of the two orders. */
  lemma SortOrderChecked(raw: Params)
    requires FirstError(raw).None? && Dict.Get(raw, "sort_order").Some?
    ensures Dict.Get(raw, "sort_order").value in {"asc", "desc"}
  {
    var v := Dict.Get(raw, "sort_order").value;
    var i :| 0 <= i < |raw| && raw[i] == ("sort_order", v);
    assert CheckParam(raw[i].0, raw[i].1).None?;
  }

  /** A value of `page` or `page_size` that passed its check is a positive number. */
  lemma NumberChecked(raw: Params, name: string)
    requires FirstError(raw).None? && (name == "page" || name == "page_size")
    requires Dict.Get(raw, name).Some?
    ensures Text.ParseNat(Dict.Get(raw, name).value).Some?
    ensures Text.ParseNat(Dict.Get(raw, name).value).value >= 1
  {
    var v := Dict.Get(raw, name).value;
    var i :| 0 <= i < |raw| && raw[i] == (name, v);
    assert CheckParam(raw[i].0, raw[i].1).None?;
  }

  /** The page asked for ends within the result window; absent numbers take their defaults. */
  predicate WithinWindow(raw: Params) {
    NumberOr(raw, "page", DefaultPage) * ClampPageSize(NumberOr(raw, "page_size", DefaultPageSize)) <= MaxResultWindow
  }

  /** A sort by distance comes with the pin to measure from. */
  predicate PinnedIfGeo(raw: Params) {
    Dict.Get(raw, "sort_by") == Some(Taxonomy.Coordinates) ==> Dict.Get(raw, "sort_by_pin").Some?
  }

  /** `ItemsQueryType(raw)`: the validated mapping, or the first violated constraint. */
  function Validate(raw: Params): (r: Result<Spec, ValidationError>)
    requires Dict.DistinctKeys(raw)
    ensures r.Ok? ==> WellFormed(r.value)
    ensures r.Ok? <==>
      (forall i :: 0 <= i < |raw| ==> CheckParam(raw[i].0, raw[i].1).None?) && WithinWindow(raw) && PinnedIfGeo(raw)
    ensures FirstError(raw).Some? ==> r == Err(FirstError(raw).value)
    ensures FirstError(raw).None? && !WithinWindow(raw) ==> r == Err(ValidationError("page", PastResultWindow))
    ensures FirstError(raw).None? && WithinWindow(raw) && !PinnedIfGeo(raw) ==>
      r == Err(ValidationError("sort_by_pin", MissingPin))
  {
    match FirstError(raw)
    case Some(e) => Err(e)
    case None => CrossCheck(raw)
  }

  /**
   * The checks across parameters, once every entry passed on its own: the
   * result window, and a pin for a distance sort.
   */
  function CrossCheck(raw: Params): (r: Result<Spec, ValidationError>)
    requires Dict.DistinctKeys(raw) && FirstError(raw).None?
    ensures r.Ok? ==> WellFormed(r.value)
    ensures r.Ok? <==> WithinWindow(raw) && PinnedIfGeo(raw)
    ensures !WithinWindow(raw) ==> r == Err(ValidationError("page", PastResultWindow))
    ensures WithinWindow(raw) && !PinnedIfGeo(raw) ==> r == Err(ValidationError("sort_by_pin", MissingPin))
  {
    var page := NumberOr(raw, "page", DefaultPage);
    var pageSize := ClampPageSize(NumberOr(raw, "page_size", DefaultPageSize));
    var order := if Dict.Get(raw, "sort_order") == Some("desc") then Desc else Asc;
    if page * pageSize > MaxResultWindow then
      Err(ValidationError("page", PastResultWindow))
    else if Dict.Get(raw, "sort_by") == Some(Taxonomy.Coordinates) && Dict.Get(raw, "sort_by_pin").None? then
      Err(ValidationError("sort_by_pin", MissingPin))
    else
      assert page >= 1 && pageSize >= 1 by {
        if Dict.Get(raw, "page").Some? { NumberChecked(raw, "page"); }
        if Dict.Get(raw, "page_size").Some? { NumberChecked(raw, "page_size"); }
      }
      var strings := Untyped(raw);
      assert "sort_by" !in TypedParams && "sort_by_pin" !in TypedParams;
      Ok(Spec(strings, page, pageSize, order))
  }


  // Properties of the validator.

  /** Absent `page`, `page_size` and `sort_order` take their defaults 1, 10 and asc. */
  lemma ValidateDefaults(raw: Params)
    requires Dict.DistinctKeys(raw) && Validate(raw).Ok?
    ensures "page" !in Dict.Keys(raw) ==> Validate(raw).value.page == DefaultPage
    ensures "page_size" !in Dict.Keys(raw) ==> Validate(raw).value.pageSize == DefaultPageSize
    ensures "sort_order" !in Dict.Keys(raw) ==> Validate(raw).value.sortOrder == Asc
  {
  }

  /** No parameters at all: page 1 of 10, ascending, nothing else. */
  lemma ValidateNoParams()
    ensures Validate([]) == Ok(Spec([], 1, 10, Asc))
  {
  }

  /** Any page size above 500 is cut down to 500 without an error. */
  lemma {:induction false} ValidateClampsPageSize(n: nat)
    requires n > MaxPageSize
    ensures Dict.DistinctKeys([("page_size", Text.NatToString(n))])
    ensures Validate([("page_size", Text.NatToString(n))]) == Ok(Spec([], 1, MaxPageSize, Asc))
  {
    Text.ParseNatToString(n);
  }

  /** `page_size=501` gives 500. */
  lemma ValidatePageSize501()
    ensures Validate([("page_size", "501")]) == Ok(Spec([], 1, 500, Asc))
  {
    assert Text.DigitsValue("501") == 501 by {
      assert "501"[..2] == "50" && "50"[..1] == "5" && "5"[..0] == "";
    }
  }

  /** Page 100 of 500 reaches exactly the end of the result window; page 101 is past it. */
  lemma ValidateWindowEdge()
    ensures Validate([("page_size", "500"), ("page", "100")]) == Ok(Spec([], 100, 500, Asc))
    ensures Validate([("page_size", "500"), ("page", "101")]) == Err(ValidationError("page", PastResultWindow))
  {
    WindowEdgeNumbers();
    assert Validate([("page_size", "500"), ("page", "100")]) == Ok(Spec([], 100, 500, Asc));
  }

  /** The window is checked on the clamped size: a requested size of 1000 counts as 500. */
  lemma ValidateWindowAfterClamp()
    ensures Validate([("page_size", "1000"), ("page", "100")]) == Ok(Spec([], 100, 500, Asc))
  {
    WindowEdgeNumbers();
    assert Text.ParseNat("1000") == Some(1000) by {
      assert Text.DigitsValue("1000") == 1000 by {
        assert "1000"[..3] == "100" && "100"[..2] == "10" && "10"[..1] == "1" && "1"[..0] == "";
      }
    }
  }

  /** The numbers spelled in the window example above. */
  lemma WindowEdgeNumbers()
    ensures Text.ParseNat("500") == Some(500)
    ensures Text.ParseNat("100") == Some(100)
    ensures Text.ParseNat("101") == Some(101)
  {
    assert Text.DigitsValue("500") == 500 by {
      assert "500"[..2] == "50" && "50"[..1] == "5" && "5"[..0] == "";
    }
    assert Text.DigitsValue("100") == 100 by {
      assert "100"[..2] == "10" && "10"[..1] == "1" && "1"[..0] == "";
    }
    assert Text.DigitsValue("101") == 101 by {
      assert "101"[..2] == "10" && "10"[..1] == "1" && "1"[..0] == "";
    }
  }


  /** Page 2 of 2: both numbers are taken as given. */
  lemma ValidatePageExample()
    ensures Validate([("page", "2"), ("page_size", "2")]) == Ok(Spec([], 2, 2, Asc))
  {
    assert Text.DigitsValue("2") == 2 by { assert "2"[..0] == ""; }
  }

  /** A sort on a record field, keyword or text, is kept as a string parameter. */
  lemma ValidateSortByExamples()
    ensures Validate([("sort_by", "sourceResource.type")]) ==
            Ok(Spec([("sort_by", "sourceResource.type")], 1, 10, Asc))
    ensures Validate([("sort_by", "sourceResource.title")]) ==
            Ok(Spec([("sort_by", "sourceResource.title")], 1, 10, Asc))
  {
    assert CheckParam("sort_by", "sourceResource.type").None?;
    assert Untyped([("sort_by", "sourceResource.type")]) == [("sort_by", "sourceResource.type")];
    assert CheckParam("sort_by", "sourceResource.title").None?;
    assert Untyped([("sort_by", "sourceResource.title")]) == [("sort_by", "sourceResource.title")];
  }

  /** A distance sort with its pin passes, both kept as string parameters. */
  lemma ValidateGeoSortExample()
    ensures Dict.DistinctKeys([("sort_by", Taxonomy.Coordinates), ("sort_by_pin", "26.15952,-97.99084")])
    ensures Validate([("sort_by", Taxonomy.Coordinates), ("sort_by_pin", "26.15952,-97.99084")]) ==
            Ok(Spec([("sort_by", Taxonomy.Coordinates), ("sort_by_pin", "26.15952,-97.99084")], 1, 10, Asc))
  {
    var raw := [("sort_by", Taxonomy.Coordinates), ("sort_by_pin", "26.15952,-97.99084")];
    GeoSortEntriesPass();
    GeoSortBagLookups();
    ValidateAccepts(raw);
  }

  /** The lookups of the distance-sort example: no numbers, no order, the pin present. */
  lemma GeoSortBagLookups()
    ensures var raw := [("sort_by", Taxonomy.Coordinates), ("sort_by_pin", "26.15952,-97.99084")];
            Dict.DistinctKeys(raw) && Untyped(raw) == raw && Dict.Get(raw, "sort_order").None? &&
            NumberOr(raw, "page", DefaultPage) == 1 && NumberOr(raw, "page_size", DefaultPageSize) == 10 &&
            WithinWindow(raw) && PinnedIfGeo(raw)
  {
    var raw := [("sort_by", Taxonomy.Coordinates), ("sort_by_pin", "26.15952,-97.99084")];
    assert Untyped(raw) == raw;
    assert Dict.Get(raw, "page").None? && Dict.Get(raw, "page_size").None?;
    assert Dict.Get(raw, "sort_by_pin").Some? && Dict.Get(raw, "sort_order").None?;
  }

  /** What an accepted bag turns into: its string entries, its numbers or their defaults, and its order. */
  lemma ValidateAccepts(raw: Params)
    requires Dict.DistinctKeys(raw) && FirstError(raw).None? && WithinWindow(raw) && PinnedIfGeo(raw)
    ensures Validate(raw) == Ok(Spec(Untyped(raw), NumberOr(raw, "page", DefaultPage),
                                     ClampPageSize(NumberOr(raw, "page_size", DefaultPageSize)),
                                     if Dict.Get(raw, "sort_order") == Some("desc") then Desc else Asc))
  { }

  /** Each entry of the distance-sort example passes its own check. */
  lemma GeoSortEntriesPass()
    ensures FirstError([("sort_by", Taxonomy.Coordinates), ("sort_by_pin", "26.15952,-97.99084")]).None?
  {
    assert CheckParam("sort_by", Taxonomy.Coordinates).None? by { Taxonomy.SpecialFieldKinds(); }
    assert CheckParam("sort_by_pin", "26.15952,-97.99084").None? by { PinExample(); }
  }

  /** The pin of the distance-sort example is a `lat,lon` pair. */
  lemma PinExample()
    ensures IsPin("26.15952,-97.99084")
  {
    var lat, lon := "26.15952", "-97.99084";
    assert lat + [','] + lon == "26.15952,-97.99084";
    PinOf(lat, lon);
  }

  /** Two non-empty parts without a comma, joined by one, make a pin. */
  lemma PinOf(lat: string, lon: string)
    requires lat != "" && lon != "" && ',' !in lat && ',' !in lon
    ensures IsPin(lat + [','] + lon)
  {
    Text.SplitAtFirst(lat, ',', lon);
    Text.SplitNoSep(lon, ',');
  }

  /** A parameter that fails its own check makes the whole validation fail. */
  lemma ValidateRejectsBadEntry(raw: Params, i: nat)
    requires Dict.DistinctKeys(raw) && i < |raw|
    requires CheckParam(raw[i].0, raw[i].1).Some?
    ensures Validate(raw).Err?
  {
  }

  /** A parameter name outside the closed set is rejected, whatever else is given. */
  lemma ValidateRejectsUnknownName(raw: Params, i: nat)
    requires Dict.DistinctKeys(raw) && i < |raw|
    requires raw[i].0 !in ControlParams && Taxonomy.Kind(raw[i].0).None?
    ensures Validate(raw).Err?
  {
    ValidateRejectsBadEntry(raw, i);
  }

  /** The three rejections pinned by name: a bad name, a one-letter `q`, a `rights` that is no URL. */
  lemma ValidateRejectionExamples()
    ensures Validate([("not_a_valid_param", "x")]) == Err(ValidationError("not_a_valid_param", UnknownParameter))
    ensures Validate([("q", "x")]) == Err(ValidationError("q", TooShort))
    ensures Validate([("rights", "I'm free!")]) == Err(ValidationError("rights", NotAUrl))
  {
    assert !IsUrl("I'm free!") by { assert "I'm free!"[0] == 'I'; }
  }

  /** A two-letter `q` and a rightsstatements.org URL are accepted. */
  lemma ValidateAcceptanceExamples()
    ensures Validate([("q", "xx")]) == Ok(Spec([("q", "xx")], 1, 10, Asc))
    ensures var url := "http://rightsstatements.org/vocab/InC/1.0/";
            Validate([("rights", url)]) == Ok(Spec([("rights", url)], 1, 10, Asc))
  {
    assert CheckParam("q", "xx").None?;
    assert FirstError([("q", "xx")]).None?;
    assert Untyped([("q", "xx")]) == [("q", "xx")];
    var url := "http://rightsstatements.org/vocab/InC/1.0/";
    assert "http://" < url;
    assert CheckParam("rights", url).None?;
    assert Untyped([("rights", url)]) == [("rights", url)];
  }

  /** Sorting on the coordinates field without a pin is rejected. */
  lemma ValidateRejectsUnpinnedGeoSort(raw: Params)
    requires Dict.DistinctKeys(raw)
    requires Dict.Get(raw, "sort_by") == Some(Taxonomy.Coordinates)
    requires "sort_by_pin" !in Dict.Keys(raw)
    ensures Validate(raw).Err?
  {
  }

  /**
   * The validated mapping keeps every string parameter that was supplied,
   * with its value.
   */
  lemma ValidateKeepsParams(raw: Params)
    requires Dict.DistinctKeys(raw) && Validate(raw).Ok?
    ensures forall k :: k !in TypedParams ==> Dict.Get(Validate(raw).value.strings, k) == Dict.Get(raw, k)
  {
    assert FirstError(raw).None?;
  }

  /** An accepted `page` or `page_size` is the number the request spelled (the page size clamped). */
  lemma ValidateKeepsNumbers(raw: Params)
    requires Dict.DistinctKeys(raw) && Validate(raw).Ok?
    ensures "page" in Dict.Keys(raw) ==>
              Text.ParseNat(Dict.Get(raw, "page").value) == Some(Validate(raw).value.page)
    ensures "page_size" in Dict.Keys(raw) ==>
              Validate(raw).value.pageSize == ClampPageSize(Text.ParseNat(Dict.Get(raw, "page_size").value).value)
  {
    assert FirstError(raw).None?;
    if "page" in Dict.Keys(raw) { NumberChecked(raw, "page"); }
    if "page_size" in Dict.Keys(raw) { NumberChecked(raw, "page_size"); }
  }

  /** An accepted `sort_order` is the order the request spelled. */
  lemma ValidateKeepsSortOrder(raw: Params)
    requires Dict.DistinctKeys(raw) && Validate(raw).Ok?
    ensures "sort_order" in Dict.Keys(raw) ==>
              Dict.Get(raw, "sort_order") == Some(Validate(raw).value.sortOrder.Name())
  {
    assert FirstError(raw).None?;
    if "sort_order" in Dict.Keys(raw) {
      SortOrderChecked(raw);
    }
  }


}
