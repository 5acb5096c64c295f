/** `ParseQuery` and `ParseRequest`: the entry points, which tie the path
    parser, the query-string parser and the directive builders together. */
module QParser {
  import opened Wrappers
  import opened Types
  import opened Strings
  import opened QueryValues
  import opened Paths
  import Includes
  import Sorting
  import Filters
  import Fields
  import Pagination

  /** Separates the path from the query string. */
  const QuerySeparator: char := '?'

  /** The query a multimap stands for: every directive built from it, and
      the multimap itself. */
  function QueryOf(values: Values): Query
  {
    Query(
      Includes.IncludesOf(values),
      Fields.ResourceFieldsOf(values),
      Sorting.SortOf(values),
      Filters.FilterList(values),
      Pagination.PageOf(values),
      values)
  }

  /** The outcome of `ParseQuery`: a decoding failure, or the query of the
      parsed multimap. */
  function ParsedQuery(query: string, unescape: Decoder): Result<Query, ParseError>
  {
    match ValuesOf(query, unescape)
    case Failure(e) => Failure(e)
    case Success(values) => Success(QueryOf(values))
  }

  /** `ParseQuery`. */
  method ParseQuery(query: string, unescape: Decoder) returns (r: Result<Query, ParseError>)
    ensures r == ParsedQuery(query, unescape)
  {
    var values := ParseValues(query, unescape);
    if values.Failure? {
      return Failure(values.error);
    }
    var includes := Includes.InitIncludes(values.value);
    var fields := Fields.InitResourceFields(values.value);
    var sort := Sorting.InitSort(values.value);
    var filters := Filters.InitFilters(values.value);
    var page := Pagination.InitPage(values.value);
    return Success(Query(includes, fields, sort, filters, page, values.value));
  }

  /** The outcome of `ParseRequest`: the text before the first `?` is the
      path, the rest the query; a path error comes first, then a query
      error, and otherwise the request carries the query. */
  function RequestOf(params: string, pathUnescape: Decoder, queryUnescape: Decoder): Result<Request, ParseError>
  {
    var (path, query) := Split(params, QuerySeparator, true);
    match ParsePath(path, pathUnescape)
    case Failure(e) => Failure(e)
    case Success(request) =>
      match ParsedQuery(query, queryUnescape)
      case Failure(e) => Failure(e)
      case Success(q) => Success(request.(query := Some(q)))
  }

  /** `ParseRequest`. */
  method ParseRequest(params: string, pathUnescape: Decoder, queryUnescape: Decoder)
    returns (r: Result<Request, ParseError>)
    ensures r == RequestOf(params, pathUnescape, queryUnescape)
  {
    var parts := Split(params, QuerySeparator, true);
    var path, query := parts.0, parts.1;
    var request := ParsePath(path, pathUnescape);
    if request.Failure? {
      return Failure(request.error);
    }
    var q := ParseQuery(query, queryUnescape);
    if q.Failure? {
      return Failure(q.error);
    }
    return Success(request.value.(query := Some(q.value)));
  }

  /** A query fails exactly when it cannot be decoded; otherwise every
      directive is built from the settings of the decoded text, a single
      leading `?` dropped. */
  lemma QueryOutcome(query: string, unescape: Decoder)
    ensures ParsedQuery(query, unescape).Failure? <==> unescape(query).None?
    ensures ParsedQuery(query, unescape).Failure? ==> ParsedQuery(query, unescape).error == DecodeFailure
    ensures unescape(query).Some? ==>
      ParsedQuery(query, unescape) == Success(QueryOf(MultimapOf(StripQuestion(unescape(query).value))))
  {
  }

  /** A request made of a path without `?`, a `?` and a query is parsed as
      that path and that query: the path's error if it has one, else the
      query's error, else the path's request carrying the query. A request
      with no `?` has the empty query. */
  lemma RequestParts(path: string, query: string, pathUnescape: Decoder, queryUnescape: Decoder)
    requires QuerySeparator !in path
    ensures var r := RequestOf(path + [QuerySeparator] + query, pathUnescape, queryUnescape);
      var p := ParsePath(path, pathUnescape);
      var q := ParsedQuery(query, queryUnescape);
      && (p.Failure? ==> r == Failure(p.error))
      && (p.Success? && q.Failure? ==> r == Failure(q.error))
      && (p.Success? && q.Success? ==> r.Success? && r.value == p.value.(query := Some(q.value)))
    ensures RequestOf(path, pathUnescape, queryUnescape) ==
      RequestOf(path + [QuerySeparator], pathUnescape, queryUnescape)
  {
    IndexOfAfter(path, QuerySeparator, query);
    IndexOfAfter(path, QuerySeparator, "");
    var params := path + [QuerySeparator] + query;
    SliceOfConcat(path, [QuerySeparator] + query, |path|);
    assert params[|path| + 1..] == query;
    var bare := path + [QuerySeparator] + "";
    assert bare == path + [QuerySeparator];
    assert Split(bare, QuerySeparator, true) == (path, "") by {
      SliceOfConcat(path, [QuerySeparator], |path|);
    }
  }

  /** A successful request always carries a query and names a resource
      type; it never has both a relationship type and a related resource
      type, so under the intended predicate it is never both kinds of
      request. */
  lemma RequestShape(params: string, pathUnescape: Decoder, queryUnescape: Decoder)
    ensures var r := RequestOf(params, pathUnescape, queryUnescape);
      r.Success? ==>
        && r.value.query.Some?
        && r.value.resource.resourceType != ""
        && (r.value.relationshipType == "" || r.value.relatedResourceType == "")
        && !(IsRelationshipRequestIntended(r.value) && IsRelatedResourceRequest(r.value))
  {
    var (path, query) := Split(params, QuerySeparator, true);
    match pathUnescape(path)
    case None =>
    case Some(decoded) =>
      PathHasType(decoded);
  }
}
