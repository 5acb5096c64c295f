/**
 * The entities the parser produces. Every one of them is a value: the
 * parser builds it once per call and never changes it afterwards.
 */
module Types {
  import opened Wrappers

  /** One occurrence of a key in the query string. A key without brackets has
      no nested-key list at all (None), which is not the same as an empty
      list (Some([])), the outcome for a key whose only group is unclosed. */
  datatype Value = Value(topLevelKey: string, nestedKeys: Option<seq<string>>, value: string)

  /** The multimap: top-level key to its occurrences, in query order. */
  type Values = map<string, seq<Value>>

  /** The addressed resource; an empty id means a collection request. */
  datatype Resource = Resource(resourceType: string, id: string)

  /** A relationship to include, with the relationships included below it. */
  datatype Include = Include(relation: string, includes: seq<Include>)

  datatype SortOrder = Asc | Desc

  datatype Sort = Sort(fieldName: string, order: SortOrder)

  /** A filter; the predicate is kept as text and is never interpreted. */
  datatype Filter = Filter(fieldName: string, predicateText: string)

  /** Pagination hints; an empty string means "not given". */
  datatype Page = Page(size: string, number: string, limit: string, offset: string, cursor: string)

  /** Requested fields per resource type. */
  type ResourceFields = map<string, seq<string>>

  /** The query directives. `includes` is None when the query has no
      `include` key; `page` is None when no page parameter was recognised. */
  datatype Query = Query(
    includes: Option<seq<Include>>,
    fields: ResourceFields,
    sort: seq<Sort>,
    filters: seq<Filter>,
    page: Option<Page>,
    values: Values)

  datatype Request = Request(
    resource: Resource,
    relationshipType: string,
    relatedResourceType: string,
    query: Option<Query>)

  /** The hard errors. A failing percent-decoder is one kind, whatever its
      reason; the relationships error names the literal it expected and the
      segment it got. */
  datatype ParseError =
    | DecodeFailure
    | EmptyPath
    | NotRelationships(expected: string, received: string)
    | UnknownPathFormat(path: string)

  /** The decoders the parser calls (`url.PathUnescape`, `url.QueryUnescape`);
      None means the text could not be decoded. */
  type Decoder = string -> Option<string>

  /** len(NestedKeys) of the source: a missing list has length zero. */
  function NestedCount(v: Value): nat
  {
    if v.nestedKeys.None? then 0 else |v.nestedKeys.value|
  }

  /** The nested keys as a list, a missing list read as the empty one. */
  function NestedList(v: Value): seq<string>
  {
    if v.nestedKeys.None? then [] else v.nestedKeys.value
  }

  /** The occurrences stored under `key`, or none. */
  function Lookup(values: Values, key: string): seq<Value>
  {
    if key in values then values[key] else []
  }

  /** A setting without nested keys and with a non-empty value, the only
      kind `include` and `sort` read. */
  predicate Unnested(v: Value)
  {
    NestedCount(v) == 0 && v.value != ""
  }

  /** A setting with exactly one nested key and a non-empty value, the only
      kind `filter` and `fields` read. */
  predicate SingleNested(v: Value)
  {
    NestedCount(v) == 1 && v.value != ""
  }
}
