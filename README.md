# Cradle system objects: admin controller transforms

This project models the data transforms in the admin routes of the Cradle
system-object package (`src/Object/controller.php`). Each route checks permissions,
fires framework events, renders a template and redirects. Between those steps it
rewrites the request *stage* (the per-request parameter bag) and the rows the search
event returns. The model covers these rewrites:

- **Query sanitizers.** The search page keeps a `filter` entry when its key is an
  identifier and its value is non-empty, and an `order` entry when its key is an
  identifier. It defaults `range` to 50. The export page keeps only the whitelisted
  `filter`/`order` keys, plus the relation's primary key, and sets `range` to 0.
  Rejected entries are deleted from the stage in place.
- **Export.** Array cells of every row are flattened to strings. The rows are then
  turned into CSV records (header first), an XML element tree (an array under a numeric
  key becomes `item`, every other entry is tagged with its key, scalars are escaped), or a JSON row list. The filename is
  `<plural>-<date>.<ext>` and each format has its own content type.
- **Search page data.** The active field is dropped from the filterable list.
  Relations with `many < 2` are offered as filters. The names of the existing
  relations are collected.
- **Create/update preprocessing.** Fields of type `none`, `active`, `created` or
  `updated` are removed from the stage. Fields sent with a falsy value become null.
  The default-value branch is proved unreachable.
- **Bulk action.** If no ids are chosen, nothing is processed. An unknown action stops
  at the first id. Otherwise each id is removed or restored in order, and the
  response's message is collected whenever the response is in error after an id's
  event.

PHP values are modelled as a datatype (`PhpValues.Value`). A PHP array is an
ordered sequence of key/value entries with unique keys. Its operations (`$a[$k]`,
`$a[$k] = $v`, `unset`) are functions with lemmas. The comparisons follow PHP 7
(the language version of the code): loose `==` (the bulk action's `switch`),
`is_numeric`, `strlen`, truthiness, and `htmlspecialchars` with its default flags. The
sanitizers are modelled with the corrected checks listed under "Findings": on the
search page an identifier pattern whose `$` matches only at the very end of the key,
and on the export page strict whitelist membership. The pattern as written (its `$`
also matches just before a final newline) and the loose `in_array` are modelled beside
them, to show what they let through. The request
is a class whose `stage` field the route methods update. The framework's Request
class is not part of this model: `Stage.Request` gives it the array semantics the
controller relies on, and `hasStage` is read as "set and not null".

The object events (`system-object-search`, `-remove`, `-restore`), `json_encode` and
the date are parameters of the methods that use them.

## Model

| member | source | states |
|---|---|---|
| Stage.Request.SetStage | src/Object/controller.php:513 | the stage gets `name` set to the value: an existing key keeps its position, a new key goes last; the stage stays a well-formed PHP array |
| Stage.Request.RemoveStage | src/Object/controller.php:614 | the key is deleted from the stage and nothing else changes |
| Stage.Request.RemoveStageEntry | src/Object/controller.php:58 | one entry is deleted from the array held under `name`; a stage whose `name` holds no array is left unchanged |
| QuerySanitizer.RemoveRejected | src/Object/controller.php:54-60 | deleting in place inside the loop leaves the array under the field as exactly its entries that the policy keeps, in their order; nothing else in the stage changes; a non-array is left alone |
| QuerySanitizer.PrepareSearchQuery | src/Object/controller.php:48-71 | the search page's stage is `SearchQuery` of the old stage: range defaulted to 50, then filter and order sanitized |
| QuerySanitizer.SearchQueryLookup | src/Object/controller.php:48-71 | `range` is kept when set, else 50; filter and order arrays are filtered by their policies; every other key keeps its value |
| QuerySanitizer.SearchFiltersKept | src/Object/controller.php:54-61 | a filter entry survives iff it was there, its key is an identifier and its value has non-zero length; survivors are a subsequence of the original (order and values kept) |
| QuerySanitizer.SearchOrdersKept | src/Object/controller.php:65-71 | an order entry survives iff it was there and its key is an identifier, whatever its value; order kept |
| QuerySanitizer.RegexAcceptsTrailingNewline | src/Object/controller.php:56-67 | the pattern as written, for filter and order keys alike, accepts `"id\n"`, which is not an identifier (see Findings) |
| QuerySanitizer.PrepareExportQuery | src/Object/controller.php:1079-1113 | the export page's stage is `ExportQuery` of the old stage: whitelist sanitizers, then `range` 0 |
| QuerySanitizer.ExportFiltersKept | src/Object/controller.php:1086-1099 | a filter entry survives iff it was there and its key is a filterable name or the relation's `schema.primary` (the corrected strict check, see Findings); order and values kept |
| QuerySanitizer.ExportOrdersKept | src/Object/controller.php:1103-1111 | an order entry survives iff it was there and its key is a sortable name (the corrected strict check, see Findings); order and values kept |
| QuerySanitizer.ExportQueryLookup | src/Object/controller.php:1086-1113 | range becomes 0, filter and order are filtered by their whitelists, every other key (including `type`) keeps its value |
| QuerySanitizer.LooseWhitelistAdmitsKeyZero | src/Object/controller.php:1095-1107 | with a whitelist of names (filterable or sortable), the loose `in_array` admits the integer key 0, which the whitelist does not hold (see Findings) |
| PhpCompare.LooseEqualsWord | src/Object/controller.php:516-522 | a word (lowercase first letter) is loosely equal exactly to itself, `true` and the integer 0 |
| Flattener.FlattenCell | src/Object/controller.php:1129-1150 | a flattened cell is never an array, and a non-array cell is unchanged |
| Flattener.FlattenRows | src/Object/controller.php:1126-1153 | overwriting cells in the nested loops keeps the number of rows and each row's keys, and every cell becomes `FlattenCell` of the original (`''` for an empty array, the `,`-join when index 0 is set, JSON text otherwise) |
| Flattener.FlattenedShape | src/Object/controller.php:1126-1153 | flattening keeps row count, key sequences and every non-array cell, and leaves no array cell |
| Flattener.FlatRowsAreFixed | src/Object/controller.php:1126-1153 | rows without array cells are unchanged by flattening |
| Flattener.FlattenIdempotent | src/Object/controller.php:1126-1153 | a second flattening pass changes nothing |
| XmlExport.DecodeEscaped | src/Object/controller.php:1218 | the escaped text, once XML entities are resolved, is the original text |
| XmlExport.EscapedHasNoMarkup | src/Object/controller.php:1218 | escaped text contains no `<`, `>` or `"` |
| XmlExport.XmlChildShape | src/Object/controller.php:1200-1222 | an array value gives an element without text, tagged `item` under a numeric key and with the key otherwise, with one child per array entry in order; a scalar gives a leaf tagged with the key whose text has no markup and resolves to the value's string form |
| XmlExport.XmlOfFlatRows | src/Object/controller.php:1200-1238 | for flat rows the root is named after the schema, has one `item` per row in order, and each item one child per column, tagged with the column name, without children, whose text resolves to the cell's string value |
| Export.CsvRecords | src/Object/controller.php:1156-1178 | with no rows, one record of the schema's field names; otherwise the first row's keys followed by every row's values, in order |
| Export.RenderExport | src/Object/controller.php:1156-1253 | `csv` (compared strictly) gives `text/csv`, `<plural>-<date>.csv` and the CSV records (the schema's field names alone when there are no rows, else the header and one record per row); `xml` gives `text/xml`, `.xml` and the document tree; any other type `text/json`, `.json` and the rows themselves |
| Export.ExportObjects | src/Object/controller.php:1061-1254 | the route stores the search page's address under `redirect`, leaves the stage sanitized as `ExportQuery`, and answers with the flattened rows in the format chosen by the `type` the request came with: for `csv` the field names or the header and every flattened row's values, for `xml` the document of the flattened rows, otherwise the flattened rows |
| SearchPage.DropActiveField | src/Object/controller.php:94-106 | the filterable list is `ActiveDropped`: when the active field is truthy, the entries not identical to it; otherwise unchanged |
| SearchPage.ActiveDroppedSpec | src/Object/controller.php:94-106 | with an active field, a name stays iff it was filterable and differs from it, in original order (renumbered); without one the list is untouched |
| SearchPage.FilterableRelations | src/Object/controller.php:108-113 | the relations kept are the ones with `many < 2`, via an append loop |
| SearchPage.FilterableRelationsSpec | src/Object/controller.php:108-113 | a relation is kept iff it is one of the schema's and its `many` is below 2; order kept |
| SearchPage.ValidRelations | src/Object/controller.php:116-120 | one entry per returned row, the row's `name`, in order |
| FieldPrep.Trim | src/Object/controller.php:627 | the trimmed string is a slice of the input from which only characters `trim` strips were cut at either end, and it neither starts nor ends with such a character |
| FieldPrep.PrepareFields | src/Object/controller.php:611-640 | the loop leaves the stage as `PreparedStage` of the old stage over the fields in order; the default branch's body is proved unreachable |
| FieldPrep.PrepareUpdate | src/Object/controller.php:733-774 | the primary key is first set to the `id` parameter, then the same preprocessing runs |
| FieldPrep.PreparedLookup | src/Object/controller.php:611-640 | after preprocessing a key reads null iff some field of that name is of an unsettable type or was sent falsy; every other key keeps its value |
| FieldPrep.PreparedKeys | src/Object/controller.php:611-640 | a key is still present iff it was present and no field of that name is of an unsettable type |
| BulkAction.SwitchAction | src/Object/controller.php:516-526 | the loose switch picks `remove` for `"remove"`, `true` or `0`, `restore` for `"restore"`, and nothing otherwise |
| BulkAction.RunBulkAction | src/Object/controller.php:499-544 | falsy ids: `No IDs chosen`, nothing processed; a non-array: nothing processed; unknown action: `No valid action chosen` after the first id is staged; otherwise every id in order is staged, its event run, and the errors are `Errors` of the ids |
| BulkAction.ProcessIds | src/Object/controller.php:511-534 | the loop stages each id in turn; with no valid action it stops at the first id with `No valid action chosen`; otherwise the final error state is `ReplyAfter` and the errors are `Errors` of all ids, in order |
| BulkAction.ErrorsCount | src/Object/controller.php:511-534 | one message per id whose event left the response in error, so at most one per id |
| BulkAction.ErrorsOfResettingEvent | src/Object/controller.php:511-534 | when the event sets or clears the error on every call, the errors are exactly the messages of the ids whose own event failed, in id order |
| BulkAction.StickyError | src/Object/controller.php:511-534 | when the event never clears an error and the response is in error, every id adds a message |
| BulkAction.NoErrorsIffAllSucceed | src/Object/controller.php:530-534 | the error list is empty iff the response is out of error after every id's event |

## Left out

- Permission checks, the object and schema events, `routeTo`, flash messages, redirects, logging and template rendering are framework calls. The events become parameters (the rows the search returned, and `handler` in `BulkAction`). The rest is not modelled.
- Byte-level output: the CSV quoting of `fputcsv` and its temporary-file read loop, the text of `json_encode`, and `SimpleXMLElement::asXML` are not modelled. The model stops at the records, the element tree and the row list they receive. `json_encode` is a function parameter.
- XmlExport.XmlChild: the builder appends children to a mutable `SimpleXMLElement`. It is modelled on values as an element tree, so the model does not capture that mutation or any aliasing. Tag names are taken as they are. An empty key is not modelled: there `addChild('')` only warns and adds no child, and under an array value the recursive call then fails on the null it returns, while the model adds an element tagged `""`.
- Strings are sequences of Unicode characters, not PHP byte strings. Invalid UTF-8 is not modelled: with it, `htmlspecialchars` returns `""` and `json_encode` returns `false`, which would leave the cell `false`. The `json` parameter always yields a string.
- `date('Y-m-d')` in the filename is a parameter. The `NOW()` default substitution sits inside the unreachable default branch and is not modelled.
- Floats and objects are not among the modelled values. Objects are cast to arrays before flattening, so they appear as arrays. Loose comparison reads numeric strings as exact reals rather than doubles.
- QuerySanitizer.RelationPrimary: a relation primary key that is set to a non-string is not added to the whitelist.
- Export.ExportObjects: the search event of line 1116 receives the request, but the model assumes it leaves the stage alone, so `type` is read as it was before the event. Its rows are a parameter. The permission check that may end the route early is not modelled.
- BulkAction.RunBulkAction: the remove and restore events are a pure `handler` over the event name, the id and the response's error state. So the model assumes the events do not touch the stage, although they receive the request: the final stage is stated on that assumption. An event whose answer depends on earlier calls, such as a repeated id that fails the second time, is also not expressible.
- BulkAction.ProcessIds: the loop rests on the same assumption about the events as BulkAction.RunBulkAction.
- The template data of the search page (`array_merge` of the stage and the results, `$data['schema']`) is not modelled beyond the filterable list and the two relation lists.
- The S3 client and suggestion-format loops of the create/update forms, the import route's error formatting, and the front-end controllers are not part of this model. Each only relays calls to other services or re-routes.
- `src/Schema/Service.php` is not part of this model. It is a factory over an external service registry.

## Findings

| source | as written | input that shows it | evidently intended | confidence | as-written member | corrected member |
|---|---|---|---|---|---|---|
| src/Object/controller.php:57 | `/^[a-zA-Z0-9_]+$/` without the `D` modifier: `$` also matches before a final newline | filter key `"id\n"` passes | only letters, digits and underscores | not executed | QuerySanitizer.RegexAcceptsTrailingNewline | QuerySanitizer.SearchFiltersKept |
| src/Object/controller.php:67 | the same pattern, without `D`, on the order keys | order key `"id\n"` passes | only letters, digits and underscores | not executed | QuerySanitizer.RegexAcceptsTrailingNewline | QuerySanitizer.SearchOrdersKept |
| src/Object/controller.php:1095 | `in_array($key, $filterable)` compares loosely; under PHP 7 the integer 0 equals any non-numeric string | `filter[0]=x` survives the whitelist of field names | the key is one of the whitelisted names | not executed | QuerySanitizer.LooseWhitelistAdmitsKeyZero | QuerySanitizer.ExportFiltersKept |
| src/Object/controller.php:1107 | `in_array($key, $sortable)` compares loosely in the same way | `order[0]=ASC` survives the sortable whitelist `["name"]` | the key is one of the sortable names | not executed | QuerySanitizer.LooseWhitelistAdmitsKeyZero | QuerySanitizer.ExportOrdersKept |
