# Extension blocking: the custom-extension admission engine

This project is a model of the server side of a small file-extension blocking
service. Users toggle blocking on a seeded list of "fixed" extensions. They
also keep a list of at most 200 "custom" extensions of their own. The model
covers these parts:

- the custom-extension service (`add`, `remove`, `getAll`);
- the two repositories and the soft-delete extension of the Prisma client
  that every query passes through;
- the `assert` / `ApiError` mechanism, the `ApiResponse` helpers and
  `withErrorHandler`;
- the two route files, `/api/extensions/custom` and `/api/extensions/fixed`.

Structure:

- Tables are classes (`CustomExtensionTable`, `FixedExtensionTable`) with a
  `rows` field. Their methods change the field in place. Each method is
  proved equal to a pure function of the old rows that returns the outcome
  and the new rows (`CreateResult`, `UpdateDeletedAt`,
  `UpdateBlockStatusResult`).
- The service's `add` is the method `Add`, which runs the source's asserts in
  order with `:-` standing for a throw. It is proved equal to the function
  `AddResult`, and the properties of `add` are lemmas about `AddResult`.
- The route handlers are functions from the table before a request to the
  response and the table after it. `Scenarios` replays the browser tests and
  the edge cases on them.
- The database is modelled by `QueryEngine`:
  - a `where` object selects the rows that agree with every column it names;
  - `findFirst`/`findUnique` return the first selected row;
  - `count` counts the selected rows;
  - `findMany` returns a sorted permutation of the selected rows (`Sorting`).
- The read hook of `prisma.ts` rewrites `where` before every read.
  `Prisma.SoftDeleteArgs` models that rewrite, so the repositories' "active
  only" behaviour is proved, not assumed.

`findByExtensionIncludeDeleted` is a `findUnique`, so it is one of the read
operations the hook rewrites. As wired it therefore sees active rows only,
while its comment and the restore branch of `add` expect it to see
soft-deleted rows too. The model keeps both readings through the parameter
`Lookup`:

- `ThroughSoftDeleteFilter` is what the code does;
- `IncludingDeleted` is what the comments describe: the repository's comment
  on `findByExtensionIncludeDeleted` says it includes soft-deleted rows for
  restoring (`src/server/repositories/custom-extension.repository.ts:14`),
  and the service's comments say a duplicate is restored and a soft-deleted
  match is brought back (`src/server/services/custom-extension.service.ts:17`,
  `:33`, `:38`).

Every property of `add` is proved for the reading it holds under, and most
hold under both. Where the comments and the code disagree, the model
follows the code:

- Re-adding a removed value does not restore it as wired (see Findings).
- `remove` with an unknown id throws. Prisma's `update` fails on a missing
  row, and the handler answers with a 500 (`UpdateDeletedAt`, `Delete`).
- Values are unique in the custom table over all rows, deleted or not, not
  only among active rows. `findUnique({ where: { extension } })` is accepted
  only on a unique column.

With the intended lookup, a restore returns before the capacity check.
Re-adding a removed value while 200 are active therefore leaves 201 active
(`RestoreCanExceedCapacity`). The service's comments name restoring as the
intended answer to a duplicate (`custom-extension.service.ts:17`, `:38`),
so this is recorded as a property of that reading rather than as a finding.
As wired, the restore never happens, and `AddPreservesInvariant` shows that
the limit of 200 holds.

## Model

| member | source | states |
|---|---|---|
| Assertions.Assert | src/server/lib/assert.ts:26-34 | returns exactly when the condition holds; otherwise throws an `ApiError` carrying the given message and status |
| Assertions.FailedAssertDefaultsTo400 | src/server/lib/assert.ts:5-13 | a failed assert with no status throws an `ApiError` with status 400 and name "ApiError" |
| ApiResponse.Success | src/server/lib/api-response.ts:9 | status 200 with the data as the body |
| ApiResponse.Created | src/server/lib/api-response.ts:12 | status 201 with the data as the body |
| ApiResponse.Error | src/server/lib/api-response.ts:15-16 | the given status with the body `{ error: message }` |
| ApiResponse.BadRequest | src/server/lib/api-response.ts:19-20 | an error response with status 400 |
| ApiResponse.NotFound | src/server/lib/api-response.ts:23-24 | an error response with status 404 |
| ApiResponse.Conflict | src/server/lib/api-response.ts:27-28 | an error response with status 409 |
| ApiResponse.ServerError | src/server/lib/api-response.ts:31-32 | an error response with status 500 |
| ApiResponse.DefaultMessages | src/server/lib/api-response.ts:23-32 | the default messages are "Not found" and "Internal server error" |
| ApiHandler.WithErrorHandler | src/server/lib/api-handler.ts:19-34 | a returned response passes through unchanged; an `ApiError` becomes its own status and message; any other throw becomes the bare 500 |
| ApiHandler.NoInternalDetailLeaks | src/server/lib/api-handler.ts:29-31 | any two unexpected faults give the same generic 500 response |
| ApiHandler.FailedAssertResponse | src/server/lib/api-handler.ts:25-27 | a failed assert inside a handler reaches the caller as its message with its status (400 by default) |
| Requests.Destructure | src/app/api/extensions/custom/route.ts:14 | an unparsable body throws and destructuring `null` throws; any other parsed body returns, and a property is defined exactly when the body is an object that has that key (otherwise it is `undefined`) |
| Requests.NonEmptyStringIff | src/app/api/extensions/custom/route.ts:16 | `!!x && typeof x === "string"` holds exactly for non-empty strings |
| Requests.BooleanTestIsByType | src/app/api/extensions/fixed/route.ts:17 | `false` passes the boolean check; the string "false" does not |
| Prisma.IsReadOperation | src/server/lib/prisma.ts:14-28 | holds for exactly the eight listed read operations |
| Prisma.SoftDeleteArgs | src/server/lib/prisma.ts:36-39 | on reads, `where` keeps every key the caller gave and gains `deletedAt: null`, which overrides the caller's own; other operations are untouched; ordering is unchanged |
| Prisma.WritesPassThrough | src/server/lib/prisma.ts:36-41 | a non-read query runs on exactly the caller's arguments |
| Prisma.UnfilteredReadSeesActiveOnly | src/server/lib/prisma.ts:36-41 | a read with no filter runs with the filter `{ deletedAt: null }` alone |
| Prisma.CallerDeletedAtOverridden | src/server/lib/prisma.ts:38 | a caller's own `deletedAt` condition on a read is replaced by `null` |
| JsString.ToLowerCase | src/server/services/custom-extension.service.ts:20 | same length; each character is lowercased, with only A-Z changed |
| JsString.ToLowerCaseIdentity | src/server/services/custom-extension.service.ts:20 | lowercasing is the identity exactly on text with no upper-case letter |
| JsString.ToLowerCaseIdempotent | src/server/services/custom-extension.service.ts:20 | lowercasing twice is the same as lowercasing once |
| JsString.TrimStart | src/server/services/custom-extension.service.ts:20 | returns a suffix of the input that does not start with white space; everything removed is white space |
| JsString.TrimEnd | src/server/services/custom-extension.service.ts:20 | returns a prefix of the input that does not end with white space; everything removed is white space |
| JsString.Trim | src/server/services/custom-extension.service.ts:20 | returns a contiguous piece of the input, starting after the leading white space, that neither starts nor ends with white space |
| JsString.TrimDropsOnlyWhiteSpace | src/server/services/custom-extension.service.ts:20 | everything trim drops, before and after the piece it returns, is white space |
| JsString.TrimIdentity | src/server/services/custom-extension.service.ts:20 | trim is the identity exactly on text with no white space at either end |
| Sorting.Insert | src/server/repositories/custom-extension.repository.ts:11 | inserting into a sorted sequence keeps it sorted and adds exactly one element |
| Sorting.Sort | src/server/repositories/custom-extension.repository.ts:11 | returns a sorted permutation of the input, for any total preorder |
| QueryEngine.Filter | src/server/repositories/custom-extension.repository.ts:10 | keeps exactly the rows the filter selects |
| QueryEngine.FirstMatch | src/server/repositories/custom-extension.repository.ts:16 | gives the first selected position, or none when no row is selected |
| QueryEngine.EvalFindFirst | src/server/repositories/fixed-extension.repository.ts:16-18 | returns a selected row, or none exactly when no row is selected |
| QueryEngine.LexLeTotal | src/server/repositories/fixed-extension.repository.ts:11 | any two strings are comparable in code-point lexicographic order |
| QueryEngine.LexLeTransitive | src/server/repositories/fixed-extension.repository.ts:11 | code-point lexicographic order is transitive |
| QueryEngine.ValueLeTotal | src/server/repositories/fixed-extension.repository.ts:11 | any two column values are comparable |
| QueryEngine.ValueLeTransitive | src/server/repositories/fixed-extension.repository.ts:11 | the order on column values is transitive |
| QueryEngine.RowOrderIsTotalPreorder | src/server/repositories/custom-extension.repository.ts:11 | ordering rows by one column, ascending or descending, is a total preorder |
| QueryEngine.EvalFindMany | src/server/repositories/custom-extension.repository.ts:9-12 | returns a permutation of the selected rows, sorted by `orderBy` when one is given |
| CustomExtensionRepository.SelectedByDeletedAt | src/server/lib/prisma.ts:38 | `{ deletedAt: null }` selects a custom row exactly when it is active |
| CustomExtensionRepository.SelectedByExtension | src/server/repositories/custom-extension.repository.ts:15-18 | `{ extension }` selects exactly the rows holding that value; with the soft-delete filter, only the active ones |
| CustomExtensionRepository.SelectedById | src/server/repositories/custom-extension.repository.ts:30-41 | `{ id }` selects exactly the row with that id |
| CustomExtensionRepository.FilterIsActiveRows | src/server/repositories/custom-extension.repository.ts:9-12 | the filter the hook adds yields exactly the active rows, in table order |
| CustomExtensionRepository.ActiveRowsMembers | src/server/repositories/custom-extension.repository.ts:9-12 | a row is in the active view exactly when it is in the table and not deleted |
| CustomExtensionRepository.NewestFirst | src/server/repositories/custom-extension.repository.ts:11 | `createdAt: "desc"` puts a row before another exactly when it is not older |
| CustomExtensionRepository.FindAll | src/server/repositories/custom-extension.repository.ts:9-12 | returns a permutation of the active rows, newest first |
| CustomExtensionRepository.FindAllMembers | src/server/repositories/custom-extension.repository.ts:9-12 | lists a row exactly when it is stored and active |
| CustomExtensionRepository.FindByExtensionIncludeDeleted | src/server/repositories/custom-extension.repository.ts:15-18 | a found row holds the value; as wired the row found is active and "none" means no active row holds the value; including deleted rows, "none" means no row at all holds it |
| CustomExtensionRepository.Count | src/server/repositories/custom-extension.repository.ts:21 | the number of active rows |
| CustomExtensionRepository.CreateResult | src/server/repositories/custom-extension.repository.ts:24-27 | succeeds exactly when neither the id nor the value is taken by any row, deleted or not; then appends one active row with that value and id, otherwise fails on the unique index and writes nothing; keeps the table constraints |
| CustomExtensionRepository.IndexOfId | src/server/repositories/custom-extension.repository.ts:30-41 | `update` finds a row with that id, deleted or not, or none when no row has it |
| CustomExtensionRepository.IndexOfStoredRow | src/server/repositories/custom-extension.repository.ts:30-41 | with unique ids, looking up a stored row by its id finds that row |
| CustomExtensionRepository.UpdateDeletedAt | src/server/repositories/custom-extension.repository.ts:30-41 | succeeds exactly when a row has the id; that row alone gets the new `deletedAt` and `updatedAt` and keeps its id, value and `createdAt`; otherwise throws record-not-found and writes nothing |
| CustomExtensionRepository.ActiveCountAfterReplace | src/server/repositories/custom-extension.repository.ts:37-41 | replacing one row changes the active count by the difference between the two rows' states |
| CustomExtensionRepository.ActiveCountAfterAppend | src/server/repositories/custom-extension.repository.ts:24-27 | appending a row adds one to the active count exactly when the row is active |
| CustomExtensionRepository.SoftDeleteHidesRow | src/server/repositories/custom-extension.repository.ts:37-41 | after `softDelete` the row is still stored but no longer listed, and the count drops by one unless the row was already deleted |
| CustomExtensionRepository.RestoreRevealsRow | src/server/repositories/custom-extension.repository.ts:30-34 | after `restore` the same row (same id, value and `createdAt`) is listed again, and the count rises by one if it was deleted |
| CustomExtensionRepository.CustomExtensionTable.constructor | src/server/repositories/custom-extension.repository.ts:7 | the table holds the given rows |
| CustomExtensionRepository.CustomExtensionTable.Create | src/server/repositories/custom-extension.repository.ts:24-27 | changes the rows in place exactly as `CreateResult` says |
| CustomExtensionRepository.CustomExtensionTable.SetDeletedAt | src/server/repositories/custom-extension.repository.ts:30-41 | changes the rows in place exactly as `UpdateDeletedAt` says |
| CustomExtensionRepository.CustomExtensionTable.Restore | src/server/repositories/custom-extension.repository.ts:30-34 | clears `deletedAt` on the row with that id, in place |
| CustomExtensionRepository.CustomExtensionTable.SoftDelete | src/server/repositories/custom-extension.repository.ts:37-41 | sets `deletedAt` to now on the row with that id, in place |
| FixedExtensionRepository.ActiveRowsOfActive | src/server/repositories/fixed-extension.repository.ts:9-12 | a table with no deleted row is its own active view |
| FixedExtensionRepository.SelectedByDeletedAt | src/server/lib/prisma.ts:38 | `{ deletedAt: null }` selects a fixed row exactly when it is active |
| FixedExtensionRepository.SelectedByActiveExtension | src/server/repositories/fixed-extension.repository.ts:15-18 | the rewritten filter selects exactly the active rows holding the value |
| FixedExtensionRepository.SelectedById | src/server/repositories/fixed-extension.repository.ts:21-25 | `{ id }` selects exactly the row with that id |
| FixedExtensionRepository.FilterIsActiveRows | src/server/repositories/fixed-extension.repository.ts:9-12 | the filter the hook adds yields exactly the active rows |
| FixedExtensionRepository.ByExtension | src/server/repositories/fixed-extension.repository.ts:11 | `extension: "asc"` puts a row before another exactly when its value is not greater |
| FixedExtensionRepository.FindAll | src/server/repositories/fixed-extension.repository.ts:9-12 | returns a permutation of the active rows in ascending order of value |
| FixedExtensionRepository.FindByExtension | src/server/repositories/fixed-extension.repository.ts:15-18 | returns an active row holding the value, or none exactly when no active row holds it |
| FixedExtensionRepository.IndexOfId | src/server/repositories/fixed-extension.repository.ts:21-25 | `update` finds the first row with that id, or none when no row has it |
| FixedExtensionRepository.UpdateBlockStatusResult | src/server/repositories/fixed-extension.repository.ts:21-25 | succeeds exactly when a row has the id; that row alone gets the flag and a fresh `updatedAt` and keeps everything else; otherwise throws and writes nothing |
| FixedExtensionRepository.IndexOfIdKept | src/server/repositories/fixed-extension.repository.ts:21-25 | rewriting the row found for an id, keeping the id, leaves that id found at the same place |
| FixedExtensionRepository.ToggleRoundTrip | src/server/repositories/fixed-extension.repository.ts:21-25 | flipping the flag and flipping it back restores the table, except for `updatedAt` |
| FixedExtensionRepository.SetTwiceIsSetOnce | src/server/repositories/fixed-extension.repository.ts:21-25 | setting the same flag twice is the same as setting it once |
| FixedExtensionRepository.SeedRows | prisma/seed.ts:12-32 | the seven seeded values in order, all unblocked and active |
| FixedExtensionRepository.SeedRowsSatisfyConstraints | prisma/seed.ts:12-20 | the seeded table has unique ids and unique values |
| FixedExtensionRepository.FixedExtensionTable.constructor | src/server/repositories/fixed-extension.repository.ts:7 | the table holds the given rows |
| FixedExtensionRepository.FixedExtensionTable.UpdateBlockStatus | src/server/repositories/fixed-extension.repository.ts:21-25 | changes the rows in place exactly as `UpdateBlockStatusResult` says |
| CustomExtensionService.Normalize | src/server/services/custom-extension.service.ts:20 | never longer than the raw text |
| CustomExtensionService.NormalizedIsLowerCase | src/server/services/custom-extension.service.ts:20 | a normalised value has no upper-case letter |
| CustomExtensionService.NormalizedEndsClean | src/server/services/custom-extension.service.ts:20 | a normalised value does not end in white space |
| CustomExtensionService.NormalizePlainText | src/server/services/custom-extension.service.ts:20 | on text that is lower case and not padded with white space, normalisation only drops a leading dot |
| CustomExtensionService.WellFormedIsPlainText | src/server/services/custom-extension.service.ts:23-31 | an accepted value contains no upper case, no white space and no dot |
| CustomExtensionService.NormalizeFixesWellFormed | src/server/services/custom-extension.service.ts:20 | normalisation leaves every acceptable value unchanged |
| CustomExtensionService.NormalizeStableOnAccepted | src/server/services/custom-extension.service.ts:20-31 | normalising an accepted value again changes nothing |
| CustomExtensionService.DottedIsPlainText | src/server/services/custom-extension.service.ts:20 | dots in front of an acceptable value leave it lower case and not padded with white space |
| CustomExtensionService.NormalizeIgnoresCase | src/server/services/custom-extension.service.ts:20 | lowercasing the raw text first does not change the normalised value |
| CustomExtensionService.NormalizeDropsDot | src/server/services/custom-extension.service.ts:20 | one leading dot in front of an acceptable value is removed |
| CustomExtensionService.NormalizeNotIdempotent | src/server/services/custom-extension.service.ts:20 | only one dot is removed: "..v" normalises to ".v", which validation refuses, and normalising ".v" again gives "v" |
| CustomExtensionService.Validate | src/server/services/custom-extension.service.ts:23-31 | accepts exactly the values of 1 to 20 characters from `[a-z0-9]`; otherwise reports the first failing check (empty, too long, characters) with status 400 |
| CustomExtensionService.OneWriteStoresRow | src/server/services/custom-extension.service.ts:34-59 | after the one write of a successful `add`, the row is stored and the table grew by at most one row |
| CustomExtensionService.Admit | src/server/services/custom-extension.service.ts:34-59 | after validation: a throw writes nothing and has status 400 or 409; a success writes one active row holding the value; the table constraints are kept |
| CustomExtensionService.AdmitNew | src/server/services/custom-extension.service.ts:46-59 | a row is appended only when no active fixed extension holds the value and fewer than 200 are active; a throw writes nothing |
| CustomExtensionService.AddResult | src/server/services/custom-extension.service.ts:18-60 | `add`: a throw writes nothing and has status 400 or 409 unless it is a database fault; a success writes exactly one active row, holding the normalised value, which is well formed; the table constraints are kept |
| CustomExtensionService.Add | src/server/services/custom-extension.service.ts:18-60 | the method, run on the mutable table, ends in the state and result `AddResult` gives |
| CustomExtensionService.AdmitInto | src/server/services/custom-extension.service.ts:34-59 | the lookup, restore and duplicate steps, in place, as `Admit` gives |
| CustomExtensionService.AdmitNewInto | src/server/services/custom-extension.service.ts:46-59 | the fixed-list, capacity and create steps, in place, as `AdmitNew` gives |
| CustomExtensionService.RemoveResult | src/server/services/custom-extension.service.ts:63 | succeeds exactly when a row has the id; the row stays stored but inactive; the count does not grow; the table constraints are kept |
| CustomExtensionService.Remove | src/server/services/custom-extension.service.ts:63 | the method ends in the state and result `RemoveResult` gives |
| CustomExtensionService.GetAll | src/server/services/custom-extension.service.ts:15 | lists exactly the active rows, newest first |
| AdmissionProperties.AddResultAdmits | src/server/services/custom-extension.service.ts:20-31 | once validation passes, `add` is the admission of the normalised value |
| AdmissionProperties.AddResultRejectsMalformed | src/server/services/custom-extension.service.ts:23-31 | a value that fails validation throws the validation error and writes nothing |
| AdmissionProperties.DuplicateRejected | src/server/services/custom-extension.service.ts:37-44 | an active custom row already holding the value gives a 409 duplicate error with nothing written, under either lookup |
| AdmissionProperties.RestoreReusesRecord | src/server/services/custom-extension.service.ts:37-41 | when the lookup sees deleted rows, re-adding a removed value brings back the same row (same id and `createdAt`), whatever the fixed list and the count |
| AdmissionProperties.FixedCollisionRejected | src/server/services/custom-extension.service.ts:46-49 | a value held by an active fixed extension (blocked or not) gives a 409 with nothing written |
| AdmissionProperties.CapacityRejected | src/server/services/custom-extension.service.ts:51-56 | a new value while 200 are active gives the 400 capacity error with nothing written |
| AdmissionProperties.CreatesNewRecord | src/server/services/custom-extension.service.ts:58-59 | an admissible new value appends one active row with that value and the new id, and the count grows by one |
| AdmissionProperties.RestoreUnreachableAsWired | src/server/services/custom-extension.service.ts:34-41 | as wired, `add` never restores: it leaves the table alone or appends a row |
| AdmissionProperties.ReAddAfterRemoveFailsAsWired | src/server/services/custom-extension.service.ts:34-59 | as wired, re-adding a removed value that is otherwise admissible hits the unique index: a database fault, nothing written |
| AdmissionProperties.AdmitSoftDeletedAsWired | src/server/services/custom-extension.service.ts:34-59 | the same, for the admission steps on the normalised value |
| AdmissionProperties.AdmittedAsWired | src/server/services/custom-extension.service.ts:34-59 | as wired, a successful `add` passed the fixed-list and capacity checks and created a new row |
| AdmissionProperties.AddPreservesInvariant | src/server/services/custom-extension.service.ts:18-60 | `add` as wired keeps the invariant: table constraints, well-formed values, no value shared with an active fixed extension, at most 200 active |
| AdmissionProperties.AppendKeepsInvariant | src/server/services/custom-extension.service.ts:46-59 | appending an active, well-formed, non-fixed row below capacity keeps the invariant |
| AdmissionProperties.RestoreCanExceedCapacity | src/server/services/custom-extension.service.ts:37-56 | when the lookup sees deleted rows, a restore with 200 active leaves 201 active, because the capacity check comes after the restore |
| AdmissionProperties.RemoveMarksRow | src/server/services/custom-extension.service.ts:63 | removing a stored row marks that row alone as deleted, keeping its id, value and `createdAt`; an active row's removal lowers the count by one |
| AdmissionProperties.RemovePreservesInvariant | src/server/services/custom-extension.service.ts:63 | `remove` keeps the invariant |
| AdmissionProperties.BlockStatusPreservesInvariant | src/server/repositories/fixed-extension.repository.ts:21-25 | changing a fixed extension's block status keeps the invariant |
| CustomExtensionsRoute.Get | src/app/api/extensions/custom/route.ts:7-10 | 200 with exactly the active custom rows, newest first |
| CustomExtensionsRoute.Post | src/app/api/extensions/custom/route.ts:13-20 | the status is 201, 400, 409 or 500; 201 carries the one row written, which is active and stored; any other status has an error body and leaves the table unchanged; a missing, unparsable or `null` body gives 500; any other body without a non-empty string `extension` gives 400 with the empty-input message |
| CustomExtensionsRoute.Respond | src/app/api/extensions/custom/route.ts:18-19 | a returned row becomes 201 with the row; a throw becomes the error handler's response |
| CustomExtensionsRoute.PostPassesStringToService | src/app/api/extensions/custom/route.ts:14-18 | any object body holding a non-empty string `extension` is answered exactly as the service answers that string |
| CustomExtensionsRoute.Delete | src/app/api/extensions/custom/route.ts:23-30 | 200 `{ success: true }` exactly when a non-empty id names a stored row; a missing id gives 400 "ID is required"; a failure leaves the table unchanged; the count never grows |
| CustomExtensionsRoute.DeleteRemoves | src/app/api/extensions/custom/route.ts:26-29 | a non-empty id goes to the service's `remove` |
| FixedExtensionsRoute.Get | src/app/api/extensions/fixed/route.ts:7-10 | 200 with a permutation of the active fixed rows, in ascending order of value |
| FixedExtensionsRoute.Patch | src/app/api/extensions/fixed/route.ts:13-21 | 200 exactly when the body has a non-empty string id naming a stored row and a boolean `isBlocked`; then that row carries the new flag; otherwise the table is unchanged; a missing, unparsable or `null` body gives 500; a body without a non-empty string id gives 400 "ID is required", checked before the flag; a non-boolean `isBlocked` gives 400 "isBlocked must be boolean"; an id naming no row gives 500 |
| FixedExtensionsRoute.Respond | src/app/api/extensions/fixed/route.ts:19-20 | a returned row becomes 200 with the row; a throw becomes the error handler's response |
| FixedExtensionsRoute.PatchPassesToRepository | src/app/api/extensions/fixed/route.ts:14-19 | any object body with a non-empty string id and a boolean `isBlocked` is answered exactly as `updateBlockStatus` answers those values |
| Scenarios.NotSeeded | prisma/seed.ts:12-20 | a value outside the seed list is not an active fixed extension |
| Scenarios.ExtensionBodyPosts | src/app/api/extensions/custom/route.ts:14-18 | posting `{ extension: s }` with a non-empty `s` is answered exactly as the service answers `s` |
| Scenarios.PatchBodyUpdates | src/app/api/extensions/fixed/route.ts:14-19 | patching `{ id, isBlocked }` with a non-empty id is answered exactly as `updateBlockStatus` answers those values |
| Scenarios.PostCreates | src/app/api/extensions/custom/route.ts:13-20 | an admissible new value posted as a string gives 201 with the appended row |
| Scenarios.AddFresh | e2e/extension-blocking.spec.ts:51-63 | adding an unseeded value ("pdf") to an empty list gives 201 and one active row |
| Scenarios.LeadingDotDropped | e2e/extension-blocking.spec.ts:145-155 | ".v" is stored as "v" |
| Scenarios.LeadingDotDroppedPptx | e2e/extension-blocking.spec.ts:145-155 | ".pptx" is stored as "pptx" |
| Scenarios.DottedUpperCaseNormalisesLikePlain | src/server/services/custom-extension.service.ts:20 | ".PDF" and "pdf" both normalise to "pdf" |
| Scenarios.DotAloneAnswers400 | src/server/services/custom-extension.service.ts:20-23 | "." normalises to the empty value and is refused with the empty-value message |
| Scenarios.DuplicateAnswers409 | e2e/extension-blocking.spec.ts:84-99 | adding the same value twice gives 201 and then 409 with the duplicate message, and the table keeps one row |
| Scenarios.SeededAreWellFormed | prisma/seed.ts:12-20 | every seeded value passes validation |
| Scenarios.FixedValueAnswers409 | e2e/extension-blocking.spec.ts:101-111 | posting a seeded value ("exe") gives 409 with the fixed-collision message |
| Scenarios.AnswersWith | src/app/api/extensions/custom/route.ts:13-20 | a service error reaches the caller as its status and message, with the table unchanged |
| Scenarios.RefusedByValidation | src/app/api/extensions/custom/route.ts:13-20 | a validation error reaches the caller as its status and message, with the table unchanged |
| Scenarios.EmptyAnswers400 | e2e/extension-blocking.spec.ts:123-131 | an empty string gives 400 with the empty-value message |
| Scenarios.MissingAnswers400 | src/app/api/extensions/custom/route.ts:16 | a body without `extension` gives 400 with the empty-value message |
| Scenarios.BlankAnswers400 | src/server/services/custom-extension.service.ts:20-23 | white space only gives 400 with the empty-value message |
| Scenarios.SpecialCharacterAnswers400 | e2e/extension-blocking.spec.ts:133-143 | a value of acceptable length with a character outside `[a-z0-9]` ("test@file") gives 400 with the character message |
| Scenarios.LengthCheckedBeforeCharacters | src/server/services/custom-extension.service.ts:24-31 | a value over 20 characters gives the length message even when its characters are also bad |
| Scenarios.UnreadableBodyAnswers500 | src/server/lib/api-handler.ts:29-31 | a body that is not JSON, or is `null`, gives the bare 500 |
| Scenarios.DeleteOnlyRow | e2e/extension-blocking.spec.ts:65-82 | deleting the only row gives 200 and leaves it stored but deleted |
| Scenarios.DeleteStoredRow | src/app/api/extensions/custom/route.ts:23-30 | deleting any stored row by its id gives 200 and marks exactly that row |
| Scenarios.NothingListedAfterDelete | e2e/extension-blocking.spec.ts:65-82 | after that deletion, GET lists nothing |
| Scenarios.ReAddAfterDeleteAsWired | src/server/services/custom-extension.service.ts:34-59 | as wired, adding a value, deleting it and adding it again gives a bare 500, and the value stays deleted |
| Scenarios.OnlyRowReAddedAsWired | src/server/services/custom-extension.service.ts:34-59 | the service part of the same sequence throws the unique-constraint fault and writes nothing |
| Scenarios.ReAddAfterDeleteRestores | src/server/services/custom-extension.service.ts:37-41 | when the lookup sees deleted rows, the same sequence gives 201 with the first row restored, with its id and `createdAt` |
| Scenarios.FullListAnswers400 | src/server/services/custom-extension.service.ts:51-56 | at 200 active, a new admissible value gives 400 with the capacity message and nothing changes |
| Scenarios.DeleteMakesRoom | src/server/services/custom-extension.service.ts:51-63 | deleting one of 200 active gives 200 and leaves 199, with every id and value kept |
| Scenarios.SeededListing | src/app/api/extensions/fixed/route.ts:7-10 | the seeded list is listed in full, in ascending order of value |
| Scenarios.ToggleExe | e2e/extension-blocking.spec.ts:29-47 | checking and then unchecking "exe" gives 200 twice and leaves the row as seeded, except for `updatedAt` |
| Scenarios.PatchValidationOrder | src/app/api/extensions/fixed/route.ts:16-17 | the id is checked before the flag, and the string "true" is not a boolean |

## Left out

- String functions: `toLowerCase` is modelled for the ASCII letters only, and
  `trim` with the ECMAScript white-space set. Full Unicode case mapping is not
  modelled, and the model leaves every other character as it is. This changes
  the answer in two ways:
  - A non-ASCII character whose lower case is an ASCII letter, such as the
    Kelvin sign (U+212A, lower case `k`), is accepted by the source as that
    letter. The model refuses it with the character message.
  - Case mappings that change the length change which message is given. For
    example, U+0130 (`İ`) lowers to `i` followed by U+0307, two UTF-16 units.
    Eleven of them make 22 units, and the source answers with the length
    message. The model keeps 11 characters and answers with the character
    message.
- Lengths: text is a sequence of code points, while JavaScript's `length`
  counts UTF-16 units. The two agree on every value that passes validation,
  since such values are ASCII. On refused text the message can differ:
  - A character outside the Basic Multilingual Plane counts as two units in
    the source and as one character in the model. Text between 11 and 20
    characters can exceed 20 units, so the source gives the length message
    where the model gives the character message.
  - The same holds for the length-changing case mappings above.
- Ordering: the database orders text by code point here; real collation
  rules are not modelled. Rows with equal `createdAt` (or equal values) may
  come back in any order, and the model promises nothing about ties.
- Concurrency: two `add` calls racing between the lookup, the count and the
  create are not modelled. Each request runs alone against the table.
- The hook rewrites `args` in place. Here the rewrite is a function that
  returns the new arguments. No other code holds the same `args` object, so
  nothing that can be observed is lost.
- Clock and ids: `new Date()` and Prisma's `@updatedAt` are the parameter
  `now`. The id the database generates for a new row is the parameter
  `newId`. An id collision is treated like any other unique-index failure.
- The schema is not part of the model. Two things are inferred from the
  queries:
  - the unique index on the custom `extension` column, from `findUnique` on
    it;
  - `updatedAt` being refreshed on every update.
- The constants module is not part of the model. The limits of 20
  characters and 200 extensions are taken from the page (`src/app/page.tsx`,
  lines 186 and 195), which shows the same limits.
- Not modelled:
  - client setup and the `globalThis` singleton in `prisma.ts`;
  - `console.error` in the error handler;
  - the page and its rendering;
  - the seed script's upserts (only its list of values and its `isBlocked:
    false` are used).
- `fixed-extension.service.ts` only passes its calls on to the repository.
  The routes call the repository functions directly.
- Prisma.AllOperations: its contract is stated through `SoftDeleteArgs` and
  the lemmas `WritesPassThrough` and `UnfilteredReadSeesActiveOnly`. The
  query is called once, by construction.
- CustomExtensionService.Normalize: its own contract only bounds the length.
  Its shape is stated by the lemmas beside it (`NormalizedIsLowerCase`,
  `NormalizedEndsClean`, `NormalizeFixesWellFormed`, `NormalizeDropsDot`,
  `NormalizeNotIdempotent`).
- The browser test's check that the input field limits typing to 20
  characters is client behaviour and is not modelled. The server-side length
  check is modelled (`LengthCheckedBeforeCharacters`).
- The browser test's counter display ("n/200") is page rendering. The count
  it shows is `Count`.

## Findings

| source | as written | input that shows it | evidently intended | confidence | as-written member | corrected member |
|---|---|---|---|---|---|---|
| src/server/repositories/custom-extension.repository.ts:15-18 | `findByExtensionIncludeDeleted` is a `findUnique`, which the read hook (src/server/lib/prisma.ts:17, 36-39) gives `deletedAt: null`. So it never sees a soft-deleted row and the restore branch of `add` cannot run. Re-adding a removed value goes on to `create` and fails on the unique `extension` index, answered with a bare 500. | add "pdf", DELETE it, add "pdf" again | the removed row is restored (same id and `createdAt`) and the answer is 201 | not executed | AdmissionProperties.ReAddAfterRemoveFailsAsWired | AdmissionProperties.RestoreReusesRecord |
