# qparser parsing engine in Dafny

This project models the parsing engine of `qparser`, a Go package that reads
JSON:API style request strings such as
`/articles/1/relationships/comments?include=author,comments.author&sort=-created,title&fields[articles]=title&filter[title]=x&page[size]=10`.
The model covers:

- **The query string.** `ParseValues` decodes the query, drops a leading `?`,
  cuts it into settings at `&` and `;`, and splits each setting at its first
  `=`. `extractKeys` then splits the key `top[n1][n2]` into a top-level key
  and nested keys. The result is an ordered multimap: top-level key to its
  occurrences, in query order. `Values.Get` reads from it.
- **The directive builders.** These turn the multimap into the query's
  directives:
  - `initIncludes` and `expandInclude`: a forest of relation chains;
  - `initSort`: sort fields with a direction, each field once;
  - `initFilters`: field and predicate pairs;
  - `initResourceFields`: sparse fieldsets per resource type, without duplicates;
  - `initPage`: pagination parameters, where the last value wins.
  - `FieldsByResource` and `SortOrder.String` are the accessors of these directives.
- **The path.** `parsePath` decodes the path, collapses runs of `/`
  (`removeExtraDelimiters`), and classifies one to four segments. Four
  segments need `relationships` as the third segment.
- **The entry points.** `ParseQuery`, `ParseRequest`, and the request kind
  predicates `IsRelationshipRequest` and `IsRelatedResourceRequest`, both as
  the code writes them. `IsRelationshipRequestIntended` is the corrected
  relationships predicate (see "## Findings").

Files and modules:

| file | module | source |
|---|---|---|
| `strings.dfy` | `Strings` | `split`, and the library's `strings.Split` and `IndexByte` |
| `delimiters.dfy` | `Delimiters` | `removeExtraDelimiters` |
| `keys.dfy` | `BracketKeys` | `extractKeys` |
| `values.dfy` | `QueryValues` | `ParseValues`, `Values.Get` |
| `paths.dfy` | `Paths` | `parsePath` and the request kind predicates |
| `includes.dfy`, `sorting.dfy`, `filters.dfy`, `fields.dfy`, `pagination.dfy` | one each | the five directive builders |
| `qparser.dfy` | `QParser` | `ParseQuery` and `ParseRequest` |
| `types.dfy`, `wrappers.dfy` | | the entities and the Option/Result types |

The source mixes pure and step-by-step code, and the model follows it:

- Every loop of the source is a `method` with a `while` or `for` loop.
  - Its `ensures` ties the result to a reference function defined by
    recursion.
  - An inner loop is a helper method: `SameKeys`, `AddRelations`,
    `AddSortItems`, `FreshItems`.
  - The body of a loop is a helper method where that keeps the proof small:
    `ParseSetting`, `AddSortItem`.
- The lemmas prove what the source promises about those reference functions.

The source keeps three pieces of state through pointers and maps, and the
model keeps each as a value:

- `initIncludes` keeps `roots`, a map from relation to `*Include`. The model
  uses a map from relation to an index into the ordered list, with the
  invariant `RootsIndex`.
- `expandInclude` mutates through pointers. The model's `ExpandInclude`
  returns the new node, and the caller stores it back.
- `initSort` and `initResourceFields` keep sets of fields already seen. The
  model carries them as `set`s, tied to the result by the `Tracks`
  invariants.

## Model

| member | source | states |
|---|---|---|
| Strings.Split | qparser.go:617-626 | with no separator the halves are the text and ""; otherwise the first half has no separator and the text is first + separator + second (cut) or first + second with the second starting at the separator |
| Strings.SplitAll | qparser.go:254 | `strings.Split` gives at least one piece, and no piece contains the separator |
| Strings.JoinSplitAll | qparser.go:254 | joining the pieces with the separator gives back the text |
| Strings.SplitAllJoin | qparser.go:254 | splitting a join of separator-free pieces gives back exactly those pieces |
| Strings.ItemsJoin | qparser.go:363-388 | a value joined from non-empty, separator-free items is visited as exactly those items |
| Strings.ItemsStopAtEmpty | qparser.go:363-388 | the items a `cur, rest := split(..)` / `for cur != ""` loop visits are the pieces of `strings.Split` up to the first empty one |
| Delimiters.Collapsed | qparser.go:629-646 | collapsing never lengthens the path and keeps its first and last character |
| Delimiters.RemoveExtraDelimiters | qparser.go:629-646 | the loop's result is the collapsed path |
| Delimiters.CollapsedNoDoubleDelim | qparser.go:629-646 | the result never has two adjacent `/` |
| Delimiters.CollapsedFixedPoint | qparser.go:629-646 | a path is left unchanged exactly when it has no two adjacent `/` |
| Delimiters.CollapsedIdempotent | qparser.go:629-646 | collapsing twice is collapsing once |
| Delimiters.CollapsedKeepsContent | qparser.go:629-646 | only `/` characters are removed: without the `/`s input and output are equal |
| BracketKeys.ExtractKeys | qparser.go:568-612 | the two scanning loops return exactly the top key and nested keys of the reference definition `KeysOf` |
| BracketKeys.KeysShape | qparser.go:561-612 | without nested keys the top key is the whole input; with them the top key is the non-empty bracket-free text before the first `[`, every nested key is non-empty and bracket-free, the input is the top key, the groups and at most one unclosed group, and exactly top key + groups when it ends in `]` |
| BracketKeys.KeysRoundTrip | qparser.go:568-612 | extracting from `top[k1]...[kn]` with good keys gives back `top` and `[k1, ..., kn]` |
| BracketKeys.NoBracketKey | qparser.go:574-587 | a key without brackets comes back unchanged with no nested keys |
| BracketKeys.GroupsBadStart | qparser.go:593-595 | a character other than `[` where a group should start rejects the nested keys |
| BracketKeys.GroupsOpenTwice | qparser.go:593-595 | a `[` inside an open group rejects the nested keys |
| BracketKeys.GroupsEmptyKey | qparser.go:600-603 | an empty group `[]` rejects the nested keys |
| BracketKeys.GroupsUnclosed | qparser.go:591-611 | a final group left unclosed is dropped, not rejected |
| QueryValues.Fragments | qparser.go:166-175 | the settings cut from a query at `&`/`;` are never empty |
| QueryValues.ParseSetting | qparser.go:176-185 | splitting a setting at its first `=` and extracting its keys gives the reference occurrence `ValueOf` |
| QueryValues.ParseValues | qparser.go:156-192 | the loop yields a decoding failure exactly when the decoder fails, and otherwise the multimap of the decoded query with one leading `?` dropped |
| QueryValues.AppendUnder | qparser.go:186-189 | creating the list when missing and then appending is appending the occurrence under its top key |
| QueryValues.MultimapLookup | qparser.go:166-190 | the occurrences stored under a key are exactly the settings with that top key, in query order; a key is stored iff some setting has it |
| QueryValues.FragmentsConcat | qparser.go:166-172 | a separator between two parts splits the settings between them |
| QueryValues.MultimapConcat | qparser.go:166-190 | under every key, the occurrences of the first part come before those of the second |
| QueryValues.EmptyFragment | qparser.go:173-175 | an empty setting between two separators adds nothing |
| QueryValues.ValueOfSplit | qparser.go:177-179 | only the first `=` splits: the key is the text before it, the value everything after, later `=` included |
| QueryValues.ValueOfNoEquals | qparser.go:176-179 | a setting without `=` is its key with the empty value |
| QueryValues.GetOf | qparser.go:106-134 | "" when no occurrence has exactly the nested keys asked for; otherwise the value of the first one that has |
| QueryValues.Get | qparser.go:106-134 | the loop over the occurrences returns the reference value `GetOf` |
| QueryValues.SameKeys | qparser.go:122-128 | the key-by-key comparison is true exactly when the nested keys equal the ones asked for |
| QueryValues.GetConcat | qparser.go:106-134 | on a query of two parts, Get answers from the first part when it has a match, else from the second |
| Paths.PathBody | qparser.go:247-253 | no body exactly when the collapsed path is "" or "/"; otherwise a non-empty body |
| Paths.Classify | qparser.go:254-280 | a success carries no query and never has both a relationship type and a related resource type; the only failures are the relationships error and the format error |
| Paths.ClassifySegments | qparser.go:254-280 | one to three segments, or four with `relationships` third, always succeed and name the type, id, related type and relationship type by position; any other count or third segment fails |
| Paths.PathOf | qparser.go:247-280 | the empty-path error exactly when the collapsed path is "" or "/"; never a decoding error |
| Paths.ParsePath | qparser.go:241-282 | a decoding error exactly when the decoder fails; otherwise the outcome for the decoded path |
| Paths.PathSegments | qparser.go:254-280 | a path written from one to four segments is read back into type, id, related type or relationship type; four segments with another third one give the relationships error naming it; five or more give the format error |
| Paths.TrailingSlashExample | qparser.go:254-265 | "/articles/1/" asks for article 1 with an empty related resource type |
| Paths.PathNormalised | qparser.go:247 | only the collapsed path matters |
| Paths.EmptyPaths | qparser.go:248-250 | "", "/" and any run of `/` are the empty-path error |
| Paths.PathHasType | qparser.go:251-277 | a successful path always names a non-empty resource type |
| Paths.RelationshipRequestAsWrittenMisses | qparser.go:85-87 | the predicate as written is false on every `/T/I/relationships/R` request, although its relationship type is R |
| Paths.RelationshipRequestAsWrittenAccepts | qparser.go:85-87 | the predicate as written is true on `/articles/1/author`, which has no relationship type |
| Paths.RequestKinds | qparser.go:85-91 | with the corrected predicate `IsRelationshipRequestIntended`, a request is a relationships request exactly for four segments and a related-resource request exactly for a non-empty third of three; never both |
| Includes.IndexOfRelation | qparser.go:505-510 | the index of the first include with the relation, or -1 when none has it |
| Includes.InsertPath | qparser.go:500-516 | a found relation keeps the list's length; a missing one is appended after the unchanged list |
| Includes.ExpandInclude | qparser.go:493-518 | the recursion returns the node with the dotted chain inserted below it (`Expanded`) |
| Includes.RootFound | qparser.go:475-476 | expanding a root found through the map is inserting the chain, and the map stays an index of the roots |
| Includes.RootAdded | qparser.go:477-481 | a new root is appended, expanded and entered into the map at its position, which is inserting the chain |
| Includes.AddRelations | qparser.go:471-484 | the item loop inserts the chains of the value's comma items, in order, and keeps the map an index of the roots |
| Includes.InitIncludes | qparser.go:458-491 | the loops return the reference forest `IncludesOf` |
| Includes.RootsInOrder | qparser.go:464-481 | the roots are the first relations of the chains, each once, in order of first appearance |
| Includes.InsertPathWellFormed | qparser.go:504-515 | inserting a chain never puts a relation twice on one level |
| Includes.InsertPathContains | qparser.go:493-518 | after an insert the chain is present in the forest |
| Includes.InsertPathPresent | qparser.go:504-510 | inserting a chain that is already present changes nothing |
| Includes.DotPathJoin | qparser.go:493-502 | a chain written with dots between non-empty, dot-free relations is read back as exactly those relations |
| Includes.InsertPathUnder | qparser.go:493-518 | one insert makes every prefix of the chain present and adds the chain's next relation at the end of that level when new; every other part of the forest, earlier chains included, is unchanged |
| Includes.ForestLevels | qparser.go:458-518 | in the forest of a list of chains, a chain is present exactly when it is empty or some chain starts with it, and the relations below it are the relations that follow it in the chains, each once, in order of first appearance |
| Includes.ForestContent | qparser.go:458-518 | every chain asked for is in the forest, nothing else is, and every level lists the next relations of the chains through it, deduplicated, in first-appearance order |
| Includes.IncludesShape | qparser.go:458-491 | no list exactly without an `include` key; otherwise the roots are the chains' first relations once each, in first-appearance order, no level repeats a relation, every chain asked for is present and nothing else is, and below each chain sit the relations that follow it in the chains, in first-appearance order |
| Includes.MergeExample | qparser.go:430-457 | the multimap holding the one `include` value "author,comments.author,comments.replies" gives `author`, then `comments` with `author` and `replies` below it; the comma and dot splitting is part of the proof |
| Includes.FragmentMergeExample | qparser_test.go:669-708 | the multimap holding the three `include` values "author,comments.author", "comments.replies" and "author.avatar" gives `author` with `avatar` below it, then `comments` with `author` and `replies` below it |
| Sorting.OrderName | qparser.go:59-64 | "DESC" exactly for descending, "ASC" exactly for ascending |
| Sorting.TokenName | qparser.go:365-369 | the item is its field name, preceded by `-` exactly when it asks for descending order |
| Sorting.AddSortItem | qparser.go:365-386 | one item adds its field with its direction unless the field is empty or already sorted by; the seen-set stays equal to the listed fields |
| Sorting.AddSortItems | qparser.go:363-388 | the item loop adds the value's items in order, stopping at the first empty item |
| Sorting.InitSort | qparser.go:351-394 | the loops return the reference list `SortOf` |
| Sorting.SortNames | qparser.go:351-394 | the sorted fields are the non-empty field names of the items, each once, in order of first mention |
| Sorting.SortFields | qparser.go:370-379 | no field twice, no empty field, and a field is sorted by exactly when some item names it |
| Sorting.SortDirection | qparser.go:365-386 | each field's direction is that of the first item naming it |
| Sorting.SortShape | qparser.go:351-394 | a query's sort list has distinct, non-empty fields, each with the direction of its first mention |
| Sorting.SortDuplicateExample | qparser.go:363-377 | the multimap holding the one `sort` value "-a,b,a" sorts by a descending, then b ascending |
| Sorting.SortBareDashExample | qparser.go:363-377 | the multimap holding the one `sort` value "-,b" skips the bare "-" and sorts by b ascending |
| Filters.FilterOf | qparser.go:410-413 | the filter's field is the nested key and its predicate the value, never empty |
| Filters.InitFilters | qparser.go:397-420 | the loop returns the reference list `FilterList` |
| Filters.FiltersConcat | qparser.go:405-415 | the filters of two runs of occurrences are those of the first, then those of the second |
| Filters.FiltersMembership | qparser.go:405-415 | a filter is listed exactly when some occurrence with one nested key and a non-empty value stands for it |
| Filters.FiltersBound | qparser.go:405-415 | at most one filter per occurrence, each with a non-empty predicate |
| Fields.FieldsByResource | qparser.go:23-29 | true exactly when the type is listed, with its list; otherwise no fields |
| Fields.NonEmpty | qparser.go:316-319 | the kept items are exactly the non-empty ones |
| Fields.AppendNew | qparser.go:316-325 | appending keeps the existing list as a prefix |
| Fields.FreshItems | qparser.go:316-325 | the item loop appends the non-empty items not yet listed, and the seen-set becomes the listed fields |
| Fields.FieldsStep | qparser.go:326-334 | nothing new leaves the fields unchanged; otherwise the list grows, or is created for a new type |
| Fields.InitResourceFields | qparser.go:293-341 | the loops return the reference map `ResourceFieldsOf` |
| Fields.FieldsSpec | qparser.go:293-341 | a type's list is the non-empty items given for it, each once, in order of first mention; a type is listed exactly when some occurrence gives it an item |
| Fields.FieldsShape | qparser.go:293-341 | a listed type has a non-empty list of distinct fields, and a field is listed exactly when some occurrence for the type gives it |
| Fields.FieldsByResourceOf | qparser.go:23-29 | on a parsed query the accessor answers with the deduplicated items and true exactly when any were given |
| Pagination.InitPage | qparser.go:520-553 | the loop returns the reference page `PageOf` |
| Pagination.PageLastWins | qparser.go:527-548 | every parameter holds the value of its last occurrence, or "" if never given |
| Pagination.PageSpec | qparser.go:520-553 | a page is returned exactly when some occurrence sets one of the five parameters, and it holds the last value of each |
| Pagination.PageLastExample | qparser.go:531-534 | the multimap holding two `page` occurrences with nested key `size`, values "10" then "20", gives size "20" and the other parameters empty |
| Pagination.PageUnknownExample | qparser.go:531-547 | the multimap holding one `page` occurrence with nested key `foo` gives no page |
| QParser.ParseQuery | qparser.go:200-215 | the outcome is the decoding failure or the query built from the parsed multimap (`ParsedQuery`) |
| QParser.QueryOutcome | qparser.go:200-204 | a query fails exactly when it cannot be decoded, always with the decoding error; otherwise every directive comes from the decoded text with one leading `?` dropped |
| QParser.ParseRequest | qparser.go:227-239 | the outcome is the reference `RequestOf`: the path's error first, then the query's, else the path's request carrying the query |
| QParser.RequestParts | qparser.go:227-239 | for a path without `?`, the request `path?query` is that path and that query; a missing `?` is the same as a trailing one |
| QParser.RequestShape | qparser.go:227-239 | a successful request carries a query and a non-empty resource type, never has both a relationship type and a related resource type, and so is never both kinds under `IsRelationshipRequestIntended` |

## Left out

- Percent-decoding is left out: `url.QueryUnescape` and `url.PathUnescape` are parameters of type `Decoder`. Every decoder failure is the one error `DecodeFailure`.
- Error messages are not modelled. Each error is a `ParseError` kind with the data its message names.
- Go's `nil` and empty slices and maps are one value in the model: an empty `seq` or `map`. This applies to `initSort`, `initFilters` and `initResourceFields`, which return `nil` when nothing is found. `initIncludes` tells the two apart, and so does the model (`None` and `Some([])`). So does `initPage` (`None`).
- Pointers and aliasing are replaced by values:
  - the `roots` map of `*Include` becomes indices into the ordered list;
  - `expandInclude` returns the node it would mutate;
  - in `initResourceFields`, `byResource` is the same map as `duplicates[resourceType]`; the model writes the updated set back.
- Go strings are bytes. Each character of a model string stands for one byte of the Go string, so a multi-byte UTF-8 character appears as several characters. The length checks of `extractKeys` then count exactly what Go's `len` counts.
- BracketKeys.ExtractKeys: applied to text with multi-byte characters written as single characters, the length check `len(rest) < nestedKeyDefMin` (qparser.go:585) counts characters where Go counts bytes. For example, the model keeps `k[é` whole, while Go returns top key `k` with no nested keys. The model is exact only under the one-byte-per-character reading above.
- Slice capacities (`make(..., 0, n)`) are left out. They do not affect any result.

Two behaviours of the code that the model keeps:

- `ParseValues` decodes the whole query before it drops a leading `?` (qparser.go:158-165). So a leading `%3F` is dropped too, and encoded `&`, `;`, `=`, `[` and `]` act as syntax after decoding.
- `initResourceFields` keeps field items as they are, spaces included; only empty items are skipped (qparser.go:313-325).

## Findings

| source | as written | input that shows it | evidently intended | confidence | as-written member | corrected member |
|---|---|---|---|---|---|---|
| qparser.go:85-87 | `IsRelationshipRequest` returns `RelatedResourceType != ""`, the same test as `IsRelatedResourceRequest` | `/articles/1/relationships/comments` parses with relationship type `comments` and an empty related type, so it answers false; `/articles/1/author` answers true | `RelationshipType != ""` | high; not executed | Paths.RelationshipRequestAsWrittenMisses | Paths.RequestKinds |
