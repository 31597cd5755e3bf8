# Workday XML extraction engine

This project models the part of `wws_api/process_data.py` that turns Workday
Web Services SOAP responses into table rows.

- `to_pyarrow` collects the record elements named by a start tag from every
  response.
- It prefixes each requested tag with its Workday namespace steps. `>>`
  separates path steps and `||` separates alternatives.
- It runs `_pull_data` over the records and renames the resulting columns.

`_pull_data` builds one row per record, or several rows, depending on the tag
markers:

- `*` descends into the matched children with the tags that follow it, using
  `_next_tags`. The current row is inherited.
- `~` flattens the matched element with `_extract_element_data`. Several
  matches are either collected into lists or fanned out into one row each.
- `^^` renames a column.
- `@@` reads an attribute.
- `%...?=...%` is a case-insensitive wildcard. It is rewritten into an XPath
  expression.
- `a||b|=col` is an OR-chain. The first alternative with exactly one match
  wins, and its `wd:type` attribute is recorded under `col`.
- Anything else is a plain XPath query. One result gives a cell. Several
  results give a list, when collections are allowed, or otherwise one new
  row per result.

`_extract_element_data` flattens an element into `prefix_child` keys,
including attribute keys. It shortens every key to at most 63 characters
with `_shorten_column_name`.

## How the model is organised

Rows are `map<string, Value>`. A value is `None`, a text, a node or a list.

The XPath and ElementPath engines are not modelled. They are an `Oracle`
value (`Xml.Oracle`) holding the caller's `xpath` and `findall` functions.
Every property therefore holds for any query semantics.

Each loop of the source is a method in `Engine`, `ElementData`, `Tags`,
`Columns` and `Frontend`. Each method is proved equal to a recursive
specification function, for example `PullData` to `PullRows` and
`PullElement` to `RunTags`. The properties are lemmas about those functions.

Exceptions the source raises on well-formed input are the error side of a
`Result`:

| exception | raised by |
|---|---|
| `ValueError` | an empty response list, or a tag with two or more `^^` |
| `IndexError` | an OR-chain without `|=` |
| `AttributeError` | `.text` or child access on a string query result, or `.get` on a string result of an OR-chain alternative |
| `NameError` | the `*` call as written (see Findings) |

Behaviour of the source that is reproduced and stated as lemmas:

- A `~` tag always raises `added_to_list`, so a record with a `~` tag never
  contributes its own row (`Engine.ElementOwnRow`).
- A plain tag with no match writes no key.
- A matched OR-chain also stores the match's text under the raw tag
  (`Engine.PlainTagOrChain`).
- `existing_keys` is filled but never read (`ElementData.FlattenedColumns`).
- The column rename is not idempotent (`Columns.RenameNotIdempotent`).

## Model

| member | source | states |
|---|---|---|
| Shorten.FindFrom | wws_api/process_data.py:471 | `col.find('_', start)` is -1 or an index at or after `start` holding `_` |
| Shorten.FindFromFirst | wws_api/process_data.py:471 | `find` returns the first `_` at or after the start, and -1 exactly when there is none |
| Shorten.RFindBefore | wws_api/process_data.py:478 | `col.rfind('_', 0, start)` is -1 or an index before `start` holding `_` |
| Shorten.RFindBeforeLast | wws_api/process_data.py:478 | `rfind` returns the last `_` before the end, and -1 exactly when there is none |
| Shorten.ShortenKeepsShort | wws_api/process_data.py:463-465 | a name within the limit is returned unchanged |
| Shorten.ShortenSuffix | wws_api/process_data.py:463-485 | the shortened name is always a suffix of the original |
| Shorten.ShortenFits | wws_api/process_data.py:463-485 | for a positive limit the result never exceeds it |
| Shorten.ShortenAtFirstSeparator | wws_api/process_data.py:467-474 | when the first `_` in the last `max_length` characters exists, the result is what follows it |
| Shorten.ShortenWithoutSeparator | wws_api/process_data.py:476-484 | with no `_` in the last `max_length` characters, the result is exactly those characters |
| Shorten.ShortenIdempotent | wws_api/process_data.py:463-485 | shortening twice is shortening once |
| ElementData.ExtractElementData | wws_api/process_data.py:421-461 | the loop over the children returns the flattened row, and `existing_keys` grows by every key it records |
| ElementData.ExtractChild | wws_api/process_data.py:435-460 | one child: its attribute cells, then its recursive cells or its text under its key |
| ElementData.RecordAttributes | wws_api/process_data.py:446-452 | each attribute is stored under `key_localname`, shortened, and recorded in `existing_keys` |
| ElementData.RecordedKeysStep | wws_api/process_data.py:441-456 | the keys one child records: its key, its attribute keys and, for a child with children, their keys |
| ElementData.AttrKeysBounded | wws_api/process_data.py:448-451 | every attribute key is within the limit |
| ElementData.RecordedKeysBounded | wws_api/process_data.py:441-456 | every recorded key is within the limit |
| ElementData.AttrCellsHas | wws_api/process_data.py:446-452 | the attribute cells have exactly the attribute keys |
| ElementData.FlattenChildrenHas | wws_api/process_data.py:435-461 | a key is in the flattened row exactly when it is an attribute key, a leaf key or a key of a deeper child |
| ElementData.DataKeysRecorded | wws_api/process_data.py:441-460 | every key of the returned row was recorded in `existing_keys` |
| ElementData.FlattenedColumns | wws_api/process_data.py:421-461 | the row's keys are the data keys, each at most `max_length` long, and all of them are in `existing_keys`, which does not affect the result |
| ElementData.AttrCellsWrites | wws_api/process_data.py:446-452 | the attribute cells are what the assignments `data[attr_key] = attr_value` leave, in attribute order |
| ElementData.FlattenChildrenWrites | wws_api/process_data.py:435-460 | the flattened row is what the walk's assignments leave, applied in document order: attribute values, then the nested row or the leaf text |
| ElementData.AppliedConcat | wws_api/process_data.py:457 | `data.update(child_data)` after some assignments is the same as making the child's assignments afterwards |
| ElementData.LastWriteWins | wws_api/process_data.py:452-460 | after a sequence of dict assignments a key is present exactly when one of them targets it, and holds the value of the last one that does |
| ElementData.WritesAreTexts | wws_api/process_data.py:452-460 | every assignment stores an attribute string or a leaf's text, which may be `None` |
| ElementData.ElementDataValues | wws_api/process_data.py:421-461 | each key of the returned row is present exactly when some assignment of the walk targets it, and holds the value of the last such assignment; every value is a string or `None` |
| Tags.NextTags | wws_api/process_data.py:407-418 | the loop returns the tags after the first occurrence of the current tag |
| Tags.AfterSnoc | wws_api/process_data.py:411-417 | after one more tag, the result grows by that tag exactly when the current tag was already seen |
| Tags.AfterFirst | wws_api/process_data.py:407-418 | the result is the suffix after the first occurrence |
| Tags.AfterAbsent | wws_api/process_data.py:407-418 | an absent tag gives no next tags |
| Tags.AfterShorter | wws_api/process_data.py:407-418 | for a present tag the result is a strictly shorter suffix, which bounds the `*` recursion |
| Tags.PrepareTagPlain | wws_api/process_data.py:147-148 | a tag with neither `>>` nor `||` is only prefixed with `./wd:` |
| Tags.PrepareTagPrefix | wws_api/process_data.py:147-148 | every prepared tag starts with `./wd:` |
| Tags.PrepareTagPieces | wws_api/process_data.py:147-148 | the prepared tag has as many `||` alternatives as the tag, and the `i`-th is the `i`-th alternative with `>>` rewritten to `/wd:` and `./wd:` in front |
| Tags.PrepareTagJoin | wws_api/process_data.py:147-148 | the prepared tag is the `||`-join of the rewritten, prefixed alternatives |
| Tags.PathStepsJoin | wws_api/process_data.py:147 | rewriting `>>` in a `||`-join rewrites each alternative separately |
| Tags.PathStepsNoBar | wws_api/process_data.py:147 | rewriting `>>` steps creates no `||` |
| Tags.SplitJoinBars | wws_api/process_data.py:148 | splitting a `||`-join gives the parts back when no part holds `||` and none but the last ends in `|` |
| Tags.PathStepsSnoc | wws_api/process_data.py:147 | a trailing `>>` becomes one more `/wd:` step unless a `>` before it pairs with it |
| Tags.PrepareAttributeTag | wws_api/process_data.py:147-148 | `@@name` is prepared as `./wd:@@name` |
| Tags.PrepareNestedAttributeTag | wws_api/process_data.py:147-148 | `path>>@@name` is prepared as `./wd:` plus the rewritten path plus `/wd:@@name` |
| Tags.AttributeTagParts | wws_api/process_data.py:308-310 | for `./wd:@@name`, with `name` holding no `./wd:`, the fallback query is `./@wd:name`, the tag without `@@` is `./wd:name`, and the attribute asked for is `{ns}name` |
| Tags.NestedAttributeTagParts | wws_api/process_data.py:308-310 | for `./wd:path/wd:@@name`, with `path/wd:name` holding no `./wd:`, the fallback query is `./wd:path/@wd:name` and the attribute asked for is `{ns}path/wd:name` |
| Tags.ExpandWildcards | wws_api/process_data.py:325-355 | the loop joins with `||` the expression of every alternative that parses, in order |
| Tags.ExpandAtMostOne | wws_api/process_data.py:329-354 | at most one expression per alternative |
| Tags.ExpandAllParsed | wws_api/process_data.py:329-355 | when every alternative parses, the expressions are the alternatives rendered one for one |
| Tags.ExpandNone | wws_api/process_data.py:338-355 | when none parses, the tag becomes the empty string |
| Tags.ParseUnparse | wws_api/process_data.py:332-337 | a clean `path%term?=kind%end` parses back to its parts |
| Tags.UnparsePieces | wws_api/process_data.py:332-333 | the `%` and `?=` splits of a clean wildcard give its three and two pieces |
| Columns.CloseFromSpec | wws_api/process_data.py:158 | the lazy `.*?\]` stops at the first `]` and fails at a newline |
| Columns.MatchFromSpec | wws_api/process_data.py:158 | the search finds the leftmost `=` from which a `]` is reached |
| Columns.CaptureSpec | wws_api/process_data.py:158-160 | the search succeeds exactly when the pattern matches; the group is the leftmost match and holds no `]` or newline |
| Columns.NoBracketNoCapture | wws_api/process_data.py:158 | a name without `]` never matches |
| Columns.SuffixNoCapture | wws_api/process_data.py:158 | a suffix of a non-matching name does not match |
| Columns.BuildRenameMap | wws_api/process_data.py:156-162 | `col_rename` holds the correct entry for every column that has one, and only such entries |
| Columns.RenameColumns | wws_api/process_data.py:156-165 | each new name is the column's `col_rename` entry, or the column itself |
| Columns.RenameCaptured | wws_api/process_data.py:159-160 | a matching name becomes the captured text without quotes, which holds no quote or `]` |
| Columns.RenamePath | wws_api/process_data.py:161-162 | otherwise a `/wd:` name becomes its last step, a suffix with no `/wd:` |
| Columns.RenameKeeps | wws_api/process_data.py:161-165 | any other name is kept |
| Columns.RenameIdempotent | wws_api/process_data.py:156-165 | renaming twice equals renaming once when the new name holds no `/wd:` |
| Columns.RenameNotIdempotent | wws_api/process_data.py:156-165 | `x=a/wd:b]` becomes `a/wd:b`, which a second pass renames to `b` |
| Engine.PullData | wws_api/process_data.py:241-404 | the loop over the elements computes `PullRows`, stopping at the first exception |
| Engine.PullElement | wws_api/process_data.py:245-402 | one element: the tag loop from a copy of the inherited cells with the flag down, ending at a `*` tag |
| Engine.ApplyTag | wws_api/process_data.py:263-399 | a `~` tag flattens, any other tag is a plain tag |
| Engine.ExtractNode | wws_api/process_data.py:269 | `_extract_element_data(elem, ns, prefix='')` of a query result: an element's flattened row, `{}` for an empty string, `AttributeError` for any other string |
| Engine.ApplyFlattenAll | wws_api/process_data.py:263-295 | the `~` branch computes `FlattenAll` |
| Engine.CollectMatches | wws_api/process_data.py:273-281 | the loop collects, key by key, the values of every flattened match in order |
| Engine.FlattenMatches | wws_api/process_data.py:283-289 | the loop builds one copy of the row per match, updated with that match's cells |
| Engine.MergeCollected | wws_api/process_data.py:276-280 | each key's list grows by the new value, and new keys start a one-element list |
| Engine.ApplyPlainTag | wws_api/process_data.py:297-399 | a plain tag computes `PlainTag` |
| Engine.LookupAttribute | wws_api/process_data.py:307-316 | the `@@` cell: the element's attribute, else the first XPath result, else `None` |
| Engine.AttributeCellPlain | wws_api/process_data.py:307-318 | an `@@name` tag reads the element's attribute `{urn:com.workday/bsvc}name`; without it, the first result of `./@wd:name`; without that, `None` |
| Engine.AttributeCellNested | wws_api/process_data.py:307-318 | a `path>>@@name` tag reads attribute `{urn:com.workday/bsvc}path/wd:name`; without it, the first result of `./wd:path/@wd:name`; without that, `None` |
| Engine.NestedAttributeNotDirect | wws_api/process_data.py:310-313 | when no attribute's namespace holds `}` and no attribute's local name holds `/` (as in any parsed XML), no attribute has that nested name, so the XPath fallback always decides |
| Engine.PlainTagAttribute | wws_api/process_data.py:299-318 | a plain `@@name` tag stores its cell under the prepared tag, changing nothing else and never fanning out |
| Engine.PlainTagNestedAttribute | wws_api/process_data.py:299-318 | the same for `path>>@@name` |
| Engine.AttributeTagIsPlain | wws_api/process_data.py:299-318 | any tag with `@@` and no `^^` stores its attribute cell under its own name and changes nothing else |
| Engine.RunOrChain | wws_api/process_data.py:360-368 | the OR-chain loop computes `OrChain` |
| Engine.StoreFound | wws_api/process_data.py:373-399 | storing query results computes `Store` |
| Engine.PullRowsStuck | wws_api/process_data.py:243-402 | an exception from one element is the result of the whole call |
| Engine.TildeRowsStuck | wws_api/process_data.py:284-288 | an exception from one match ends the `~` fan-out loop |
| Engine.CollectedStuck | wws_api/process_data.py:274-280 | an exception from one match ends the `~` collect loop |
| Engine.CellsStuck | wws_api/process_data.py:385-389 | an exception from one result ends the list loop |
| Engine.FanOutRowsStuck | wws_api/process_data.py:394-397 | an exception from one result ends the fan-out loop |
| Engine.FanOutRowsSpec | wws_api/process_data.py:393-397 | the fan-out succeeds exactly when every result is an element, and then gives one row per result with its text under the name |
| Engine.CellsSpec | wws_api/process_data.py:384-389 | the list has one cell per result: texts when the first result has `text`, else the raw results |
| Engine.StoreSpec | wws_api/process_data.py:373-399 | no result changes nothing; one result sets one cell; with collections allowed, several set a list with one cell per result, in order (texts when the first is an element, raw results when it is a string), and keep the other cells; otherwise they keep the row, append one row per result with its text under the name, and raise the flag |
| Engine.NestedKeysFit | wws_api/process_data.py:269 | every key that a flattened match contributes is at most 63 characters long; the no-match case stores under the raw tag, which this does not bound |
| Engine.TildeRowsSpec | wws_api/process_data.py:283-289 | the fan-out succeeds exactly when every match flattens, and then gives the row merged with each match's cells, in order |
| Engine.CollectedOk | wws_api/process_data.py:274-275 | collecting succeeds exactly when every match flattens |
| Engine.CollectedHas | wws_api/process_data.py:273-280 | a key is collected exactly when some match has it, with between 1 and `len(elems)` values |
| Engine.CollectedValues | wws_api/process_data.py:273-280 | each collected list is exactly the matches' values for its key, in document order, and a key without values is not collected |
| Engine.MergedLists | wws_api/process_data.py:281 | `row_dict.update(collected_data)` gives the row's keys plus the matched keys, each matched key holding its list and every other key its old cell |
| Engine.CollectedSpec | wws_api/process_data.py:272-281 | collecting succeeds exactly when every match flattens; a key is collected exactly when some match has it, and its list is, in document order, the value of every match that has it |
| Engine.FlattenAllSpec | wws_api/process_data.py:263-295 | a `~` tag always raises the flag; no match stores `None` under the raw tag; one match merges its cells into the row |
| Engine.FlattenAllCollect | wws_api/process_data.py:271-281 | several matches with collections allowed append nothing; the row gains exactly the matches' keys, and each matched key holds the list of the matches' values in order, replacing the old cell; other cells are kept |
| Engine.FlattenAllFanOut | wws_api/process_data.py:282-290 | several matches without collections keep the row and append, in order, the row merged with each match |
| Engine.SplitRenameSpec | wws_api/process_data.py:299-302 | without `^^` the tag names itself; with it the split fails exactly when there are more than two parts, and otherwise gives query and name, neither holding `^^` |
| Engine.OrChainFirstMatch | wws_api/process_data.py:363-368 | the first alternative with exactly one result decides: its `wd:type` goes under the type column, or a string result raises `AttributeError` |
| Engine.OrChainNoMatch | wws_api/process_data.py:363-368 | when no alternative has exactly one result, the row is unchanged and the last alternative's results are stored |
| Engine.PlainTagOrChain | wws_api/process_data.py:360-376 | a matched OR-chain stores the type under the `|=` column and the match's text under the raw tag |
| Engine.OrChainResult | wws_api/process_data.py:360-368 | the chain keeps every key and its results are those of one alternative |
| Engine.OrChainAnyRow | wws_api/process_data.py:360-368 | whether the OR-chain fails, and the results it stores, do not depend on the row it is given |
| Engine.LookupAnyRow | wws_api/process_data.py:320-376 | whether a query fails, and its results, do not depend on the row it is given |
| Engine.StoreKeeps | wws_api/process_data.py:373-399 | storing results keeps every key of the row and of every appended row |
| Engine.FlattenAllKeeps | wws_api/process_data.py:263-295 | a `~` tag keeps every key of the row and of every appended row |
| Engine.PlainTagKeeps | wws_api/process_data.py:297-399 | a plain tag keeps every key of the row and of every appended row |
| Engine.TagStepKeeps | wws_api/process_data.py:263-399 | any non-`*` tag keeps every key of the row and of every appended row |
| Engine.PullRowsKeep | wws_api/process_data.py:246-249 | every row produced carries every inherited key |
| Engine.RunTagsKeep | wws_api/process_data.py:251-262 | the tag loop, including the `*` recursion, keeps every key |
| Engine.PlainTagFlag | wws_api/process_data.py:297-399 | a plain tag never lowers the flag, and changes neither flag nor output when collections are allowed or its own query gives at most one result for this element |
| Engine.TagStepFlag | wws_api/process_data.py:263-399 | a `~` tag always raises the flag; a plain tag whose query gives this element at most one result, or any plain tag when collections are allowed, changes neither flag nor output |
| Engine.RunTagsFlag | wws_api/process_data.py:251-295 | the flag ends raised when a remaining tag has `*` or `~`, and otherwise ends as it started when every remaining plain tag gives this element at most one result |
| Engine.ElementOwnRow | wws_api/process_data.py:245-402 | when every plain tag gives this element at most one result (or collections are allowed), the element contributes its own row exactly when none of its tags has `*` or `~` |
| Engine.StoreShift | wws_api/process_data.py:393-399 | what a tag appends does not depend on the rows already in `row_list` |
| Engine.FlattenAllShift | wws_api/process_data.py:283-290 | the same for a `~` tag |
| Engine.PlainTagShift | wws_api/process_data.py:297-399 | the same for a plain tag |
| Engine.RunTagsShift | wws_api/process_data.py:251-262 | the same for a whole element |
| Engine.PullRowsStep | wws_api/process_data.py:243-402 | the rows of `n` elements are the rows of the first `n - 1` followed by the last element's own rows |
| Engine.ElementSingleRow | wws_api/process_data.py:401-402 | without `*` or `~`, and with every plain tag giving this element at most one result, an element gives exactly its row |
| Engine.OneRowPerElement | wws_api/process_data.py:241-404 | under that condition for every element, the call succeeds exactly when every element does, and gives one row per element, in order |
| Engine.StarEndsTags | wws_api/process_data.py:253-262 | the tags before the first `*` run as usual, then the nested engine runs and no later tag is applied to the element |
| Engine.StarAsWritten | wws_api/process_data.py:256 | the call to `pull_data` raises `NameError` |
| Engine.StarCorrected | wws_api/process_data.py:253-262 | calling `_pull_data` instead is the `*` branch of the model |
| Frontend.ToPyarrow | wws_api/process_data.py:137-166 | an empty response list raises `ValueError`; otherwise the rows are the engine's result on all records and prepared tags, and each column is renamed |
| Frontend.RecordsMembers | wws_api/process_data.py:142-144 | an element is a record exactly when some response's start-tag query returns it |
| Frontend.PreparedTags | wws_api/process_data.py:147-148 | there is one prepared tag per tag |
| Frontend.PreparedTagsSpec | wws_api/process_data.py:147-148 | every prepared tag starts with `./wd:`, and plain tags are only prefixed |
| Xml.GetAttr | wws_api/process_data.py:311 | `element.get(t)` is `None` exactly when no attribute has Clark name `t`, else that attribute's value |
| PyStr.JoinSplit | wws_api/process_data.py:328-355 | joining the `||` split with `||` restores the tag |
| PyStr.SplitPieceFree | wws_api/process_data.py:300 | no piece of a split holds the separator |
| PyStr.StripShape | wws_api/process_data.py:264 | `strip()` removes exactly the leading and trailing whitespace |
| PyStr.ReplaceDeletes | wws_api/process_data.py:160 | `.replace("'", '')` deletes every quote |
| PyStr.ReplaceFront | wws_api/process_data.py:147-148 | `replace` scans left to right: an occurrence at the front is replaced and the scan resumes after it |
| PyStr.ReplaceKeep | wws_api/process_data.py:147-148 | a first character that starts no occurrence is kept and the scan resumes at the next |
| PyStr.ReplaceConcat | wws_api/process_data.py:147-148 | when no occurrence can straddle the seam, replacing in a concatenation replaces in each part |
| PyStr.LastPieceSuffix | wws_api/process_data.py:162 | `split('/wd:')[-1]` is a suffix of the name |

## Left out

- The construction of the pyarrow table is not modelled: `pa.Table.from_pylist`, its schema inference, and the errors it raises on mixed cell types. `Frontend.ToPyarrow` takes the table's column names as a function `columnNames` of the rows and returns the rows and the renamed names.
- Parsing the response bytes (`etree.fromstring`) is not modelled: the responses are already-parsed root elements.
- XPath 1.0 and ElementPath evaluation, and lxml's errors on malformed paths, are not modelled. Queries are the caller's `Oracle`, so results other than elements and strings (numbers, booleans) are not represented.
- Comments and processing instructions among an element's children are not modelled.
- `strip()` and `lower()` are modelled over ASCII whitespace and ASCII letters only.
- The diagnostics printed for malformed wildcard alternatives (lines 339 and 353) are not modelled. The alternative is skipped, as in the source.
- `to_dict` and `to_json` are not modelled. They are thin wrappers around `xmltodict`.
- The `ns` argument of `_pull_data` is fixed to the `wd` → `urn:com.workday/bsvc` binding, the only one `to_pyarrow` passes.
- `wws_api/request_data.py` is not part of this model.
- A row is a `map`, so the insertion order of the source's dicts is not modelled, and neither is the column order that `pa.Table.from_pylist` derives from it. Every property is stated about keys and values only.
- Engine.PlainTagAttribute: stated for attribute names without `>`, `|` or `^`, where the prepared and rewritten strings can be written out. Other names run through the same `Engine.LookupAttribute` code, but no closed form of their cell is stated.
- Engine.PlainTagNestedAttribute: stated, for the same reason, for paths without `|` or `^` and not ending in `>`, and for names as above.
- Engine.AttributeCellPlain: stated for attribute names without `@`, which no XML name holds, and without the text `./wd:`, which the source's last `replace` would also remove.
- Engine.AttributeCellNested: stated for paths and attribute names without `@`, and for a `path/wd:name` without the text `./wd:` (so not for a path ending in `.`), for the same reasons.
- Tags.AttributeTagParts: stated for names without `@` and without the text `./wd:`, as for Engine.AttributeCellPlain.
- Tags.NestedAttributeTagParts: stated for paths and names without `@` and a `path/wd:name` without the text `./wd:`, as for Engine.AttributeCellNested.
- Engine.PullRows: the `*` call at line 256 is modelled as the evidently intended recursive call of `_pull_data`. The as-written behaviour is stated separately (see Findings).

## Findings

| source | as written | input that shows it | evidently intended | confidence | as-written member | corrected member |
|---|---|---|---|---|---|---|
| wws_api/process_data.py:256 | the `*` branch calls `pull_data`, a name the module neither defines nor imports | any tag containing `*` that is reached for some record, e.g. tags `['Worker_Data*', 'Name']` | a recursive call of `_pull_data` on the matched children | high; not executed | Engine.StarAsWritten | Engine.StarCorrected |
