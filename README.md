# Handbook reconciliation — a Dafny model

This project models the logic of a reference-data ("handbook") service. The service stores handbooks. Each handbook has dated versions, and each version holds coded elements (an id, a code and a value). The model covers:

- **Bulk reconciliation** (`RecentHandbookElementsValidation`). A client sends its copy of a handbook's elements. The service compares it with the elements of the handbook's most recent version. It reports:
  - the ids only the client has (`missing_id`; the name is inverted, as in the code);
  - the ids only the server has (`unexpected_id`);
  - `id_error` when no id is shared;
  - otherwise, the server elements with a shared id whose code (`code_errors`) or value (`value_errors`) appears nowhere in the client's whole list. This is a membership test against the entire list, not a comparison with the client element that has the same id. The model keeps this behaviour.
- **Single-element reconciliation** (`ElementHandbookValidation`). One element is checked against a version chosen by its label.
- **Version selection.**
  - The most recent version of a handbook.
  - The version actual on a date: the version with the greatest `created` that is on or before the date.
  - The lookup of a version by its label.
- **Label resolution** when an element is created.
- **Pagination**: the limit/offset defaulting rule and the `[offset : offset + limit]` slice used by the list endpoints.

The database is three plain sequences (`Store.Store`). Timestamps are integers. A JSON error dictionary is a record whose fields are `Option`s: `None` means the key is absent. Where the service's code raises a lookup fault (`.latest` with no rows, `.get` with no rows or several), the model returns `None`, `NotFound` or `Ambiguous`.

Modules:

| Module | File | What it holds |
|---|---|---|
| `Wrappers` | wrappers.dfy | `Option` |
| `Seqs` | seqs.dfy | order-preserving `Filter` and subsequence facts |
| `Decimal` | decimal.dfy | decimal text of integers |
| `Pagination` | pagination.dfy | terminology/utils.py and the page slice |
| `Store` | store.dfy | the tables and their lookups |
| `Validation` | validation.dfy | both reconciliation endpoints |
| `Queries` | queries.dfy | the read endpoints and label resolution |

Pagination is commonly described as replacing malformed `limit`/`offset` values by the defaults. The code does not do this: it does not parse them at all (see Findings). The model follows the code for the rule as written. The list endpoints use the corrected rule.

## Model

| member | source | states |
|---|---|---|
| `Pagination.LimitOffset` | terminology/utils.py:1-8 | both keys present: their text is returned unchanged, unparsed; `limit` absent: `(10, 0)`; `offset` absent: `(10, 0)`, discarding a supplied limit; total on every query |
| `Pagination.Page` | terminology/views.py:56 | `IsPageOf`: the slice has at most `limit` entries, exactly `min(limit, len - offset)` (none past the end), and entry `i` is the list's entry `offset + i` |
| `Pagination.PagesConcatenate` | terminology/views.py:56 | the page at `offset` followed by the next page at `offset + first` is the page of both sizes together |
| `Pagination.SliceAsWritten` | terminology/views.py:55-56 | slicing with the bounds as returned succeeds exactly when both are the integer defaults; text bounds raise a TypeError |
| `Pagination.ExplicitLimitOffsetFaults` | terminology/utils.py:2-4 | a query with `limit=5&offset=0` makes the slice fail |
| `Pagination.ParsedLimitOffset` | terminology/utils.py:1-8 | corrected rule: a result other than the defaults comes only from two present, parsable keys, and two present, parsable keys always give their values |
| `Pagination.ParsedLimitOffsetReadsNumbers` | terminology/utils.py:3-4 | query values written as the decimal text of two numbers come back as those numbers |
| `Pagination.ParsedAgreesWithAsWritten` | terminology/utils.py:5-8 | wherever the rule as written does not fail, the corrected rule gives the same page |
| `Decimal.ParseRendered` | terminology/views.py:327 | reading back the decimal rendering of a number gives the number |
| `Decimal.IntToString` | terminology/views.py:327 | the f-string rendering of an id: digits that read back as the id, after a `-` when it is negative, with no leading zero (`"0"` for zero) |
| `Store.RecentVersion` | terminology/views.py:135-137 | `.latest("created")`: none exactly when the handbook has no version; otherwise one of its versions, and no version of it has a later `created` |
| `Store.ActualVersion` | terminology/views.py:100-105 | none exactly when every version of the handbook was created after the date; otherwise a version of it created on or before the date, and no such version is later |
| `Store.VersionByLabel` | terminology/views.py:176-178 | `.get(version=...)` within a handbook: not found exactly when no version matches; found means the matching version, and every match equals it; ambiguous means two positions match |
| `Store.ElementsOfVersion` | terminology/views.py:266-268 | an element is listed exactly when it is stored and linked to the version; the list keeps store order |
| `Store.FindElement` | terminology/views.py:323-325 | none exactly when no element has the id; otherwise a listed element with that id |
| `Validation.IdCheck` | terminology/views.py:275-288 | `missing_id` and `unexpected_id` are never present with an empty set |
| `Validation.IdCheckReports` | terminology/views.py:275-288 | shared ids are those both lists carry; `missing_id` is present exactly when some received id is unknown to the server, and then holds exactly those ids; `unexpected_id` is the same the other way round |
| `Validation.IdSetsPartition` | terminology/views.py:276-281 | missing, unexpected and shared ids are pairwise disjoint; missing and shared make up the received ids; unexpected and shared make up the server ids |
| `Validation.CodesMeaning` | terminology/views.py:244 | a code is in the received code list exactly when some received element has it |
| `Validation.ValuesMeaning` | terminology/views.py:245 | a value is in the received value list exactly when some received element has it |
| `Validation.Codes` | terminology/views.py:244 | one code per received element, in order: entry `i` is element `i`'s code |
| `Validation.Values` | terminology/views.py:245 | one value per received element, in order: entry `i` is element `i`'s value |
| `Validation.ValidateRecentElements` | terminology/views.py:228-260 | the loops over the server list and the checked list produce exactly `BulkValidation` of the two lists |
| `Validation.NoOverlapStopsAtIds` | terminology/views.py:233-237 | `id_error` is present exactly when no received id is a server id; it then reads "no matching id's" and there are no `code_errors` or `value_errors` (two empty lists included) |
| `Validation.CheckedExactly` | terminology/views.py:239-242 | the server elements that get checked are exactly those whose id the client also sent |
| `Validation.CodeErrorsExactly` | terminology/views.py:244-251 | with some id shared, a server element is in `code_errors` exactly when its id is shared and no received element, of any id, has its code |
| `Validation.ValueErrorsExactly` | terminology/views.py:244-253 | with some id shared, a server element is in `value_errors` exactly when its id is shared and no received element, of any id, has its value |
| `Validation.ErrorsFollowServerOrder` | terminology/views.py:239-253 | both error lists are subsequences of the server list |
| `Validation.KeysOnlyWhenNonEmpty` | terminology/views.py:255-258 | `missing_id`, `unexpected_id`, `code_errors` and `value_errors` are never present with an empty list |
| `Validation.IdenticalListsAgree` | terminology/views.py:228-260 | a non-empty snapshot identical to the server list gives an empty dictionary |
| `Validation.CodeMismatchReported` | terminology/views.py:249-256 | server `{1, A, 1}` against client `{1, B, 1}`: exactly `code_errors = [server element 1]` |
| `Validation.CodeOnOtherIdSuppresses` | terminology/views.py:244-251 | the server code "A" of id 1, sent by the client under id 2, suppresses the code error for id 1 |
| `Validation.ReportsElementIsUnique` | terminology/views.py:321-335 | the single-element report is determined by its inputs |
| `Validation.ValidateElement` | terminology/views.py:321-335 | an id not in the version gives exactly `{id_error: "no such id <id>"}`; otherwise no id error, `element_code_error` present exactly when the codes differ and then the server's code, and the same for the value |
| `Validation.ValidateRecentHandbook` | terminology/views.py:262-273 | no result exactly when the handbook has no version (`.latest` raises); otherwise the bulk check against the elements of the most recent version |
| `Validation.ValidateElementOfVersion` | terminology/views.py:317-335 | the version lookup's failure passes through; a found version gives the single-element report against that version's elements |
| `Queries.HandbookList` | terminology/views.py:54-58 | exactly the page of the handbook table at `offset`: `min(limit, count - offset)` handbooks (none past the end), entry `i` being stored handbook `offset + i` |
| `Queries.RecentElementsPage` | terminology/views.py:131-146 | no result exactly when the handbook has no version; otherwise exactly the page at `offset`, of up to `limit` entries, of the elements linked to the most recent version |
| `Queries.VersionElementsPage` | terminology/views.py:169-186 | the label lookup's failure passes through; otherwise exactly the page at `offset`, of up to `limit` entries, of the elements linked to the labelled version |
| `Queries.ActualForDate` | terminology/views.py:93-106 | the loop's union is exactly the actual version of each handbook on the page that has one |
| `Queries.OneVersionPerHandbook` | terminology/views.py:99-106 | two returned versions of the same handbook are the same version |
| `Queries.ActualVersionIsLatestBefore` | terminology/views.py:100-105 | a returned version belongs to a listed handbook, was created on or before the date, and no version of its handbook created on or before the date is later |
| `Queries.HandbookContributes` | terminology/views.py:99-106 | a listed handbook contributes a version exactly when it has one created on or before the date |
| `Queries.ResolveLabels` | terminology/views.py:391-397 | the loop collects exactly the ids of the versions whose label was sent, in store order |
| `Queries.ResolvedIdsExactly` | terminology/views.py:391-393 | an id is resolved exactly when a version with that id, of any handbook, carries one of the labels |
| `Queries.UnmatchedLabelDropped` | terminology/views.py:391-397 | a label that matches no version changes nothing: it is dropped silently |
| `Queries.LabelResolvesAcrossHandbooks` | terminology/views.py:391-393 | the same label in two handbooks resolves to both versions |

## Left out

- HTTP handling. The 400 responses for missing body or query keys are not modelled, and neither are `JsonResponse`, status codes or routing. The model starts from the already extracted values.
- The date string and its `strptime` parsing. The date is an integer timestamp, and so are `created` and `starting_date`.
- The write layer: `PostHandbook`, `PostHandbookVersion` and the persisting part of `PostHandbookElement`. Field validation happens in serializers, whose rules are not part of this model. Only the label resolution of element creation is modelled.
- `HandbookVersion.save` and its default for `starting_date`. It depends on when the framework fills the timestamps.
- Serialization. Error entries hold the server `Element` itself, without the `{"element_code_error": ...}` wrapper. The handbook list does not nest each handbook's versions.
- `GetHandbooksShort`: routed for debugging only and marked as not in use; it is the same page as `Queries.HandbookList`.
- Order of `missing_id`, `unexpected_id` and the date query's union. Python builds the first two from sets and SQL `UNION` has no order, so the model uses sets.
- Store order is the order of the sequences. The database's default ordering is not fixed.
- Store.RecentVersion: among versions with equal `created`, it picks the earliest stored one. The database's choice is unspecified. Store.ActualVersion inherits this.
- Validation.ValidateElement: the element is looked up as the first one with the id. `.get(pk=...)` would raise if there were several, which primary keys rule out.
- Queries.HandbookList, Queries.RecentElementsPage, Queries.VersionElementsPage, Queries.ActualForDate: page with the corrected rule `Pagination.ParsedLimitOffset`, so a query with both `limit` and `offset` gives a page where the code raises a TypeError (see Findings). `Pagination.ParsedAgreesWithAsWritten` proves that the two rules give the same page wherever the rule as written does not fail.
- Pagination.ParsedLimitOffset: accepts only plain decimal digits. Python's `int()` also accepts a sign, surrounding whitespace and underscores.
- Values of the wrong JSON type, such as an id sent as a string, are not modelled. Ids are integers; codes, values and labels are strings.

## Findings

| source | as written | input that shows it | evidently intended | confidence | as-written member | corrected member |
|---|---|---|---|---|---|---|
| terminology/utils.py:1-8 | with both `limit` and `offset` in the query, their text is returned unparsed; each list endpoint then slices `[offset : offset + limit]` with strings, and Python raises a TypeError | `?limit=5&offset=0` | read both values as integers, and use the defaults 10 and 0 when a value is missing or malformed | medium, not executed | `Pagination.ExplicitLimitOffsetFaults` | `Pagination.ParsedLimitOffset` |
