# People records: controller model

The controller manages a table of missing-person entries: name, surname,
description, last-seen location, a sex flag and an optional photo. Each entry
is owned by a registered user. Its behaviour is modelled here:

- the list page: a search over four text columns, a four-way sort switch,
  and the sort links the page offers next;
- the detail page, and the GET forms of Edit and Delete, with their ordered
  checks: not found, then the owner-or-administrator check, then the
  "EditPolicy" requirement;
- the three actions that write: Create, the POST of Edit, and the POST of
  Delete (`DeleteConfirmed`). These run on a class that holds the People and
  Users tables of the database context.

Modules:

- `Entities` (entities.dfy): the rows (`Person`, `User`), the caller, the
  create form, and the responses and faults an action can produce.
- `Text` (text.dfy): substring search and the lexicographic order used to
  sort on the location column.
- `Store` (store.dfy): lookups by primary key, row removal, the owner lookup
  by e-mail (`QueryForOwnerId`), and the table constraints.
- `Query` (query.dfy): the `Index` action as pure functions. An insertion
  sort stands in as the reference for the store's ORDER BY.
- `Access` (access.dfy): the authorization gates, the ownership check,
  `Details`, GET `Edit`, GET `Delete`, the five-field patch, and the stored
  photo name.
- `Controller` (controller.dfy): class `PeopleController` with the People
  table (`people`), the Users table (`users`) and the identity counter
  (`nextId`). Its object invariant `Valid()` holds the store's constraints.
  The methods `CreatePost`, `EditPost` and `DeleteConfirmed` state the whole
  new table and keep `Valid()`.

Modelling choices:

- A null and an empty `sortOrder` or `searchString` behave the same way in
  every branch. Both are `Option<string>`, and `IsNullOrEmpty` covers them.
- `[Authorize]` is the guard `Access.Gate`. An anonymous caller gets
  `Challenge`. For `[Authorize(Roles = "Administrator")]`, a signed-in caller
  who is not an administrator gets `Forbid`.
- The two null dereferences become the outcome `Error(NullReference)`:
  - `Find` can give null in POST Edit (line 156, dereferenced at line 157);
  - `QueryForOwnerId` can find no user (line 236). This fault comes even for
    an administrator, because the lookup runs before the role test.
- `DeleteConfirmed` on a missing id hands null to `Remove`. This becomes
  `Error(ArgumentNull)`.
- The "EditPolicy" requirement is a parameter `policy: (Caller, Person) -> bool`.
  `ModelState.IsValid` is a boolean parameter.
- A concurrency failure on save is the input `SaveOutcome`:
  - `DeletedConcurrently`: the other request's delete is applied, then
    `PersonExists` is asked, which gives `NotFound`;
  - `ModifiedConcurrently`: the row is still there, so the exception is
    rethrown as `Error(ConcurrencyConflict)`.
- The POST of Edit patches a local copy of the tracked row, one field after
  another. The table changes only on a successful save. The policy is asked
  about the patched copy, as in the source. The view gets the submitted form.

Two behaviours of the code that a reader might not expect:

- The sort switch (rej/Controllers/PeopleController.cs:46-60) has no default
  case. An empty or unknown token leaves the rows in the store's order; they
  are not sorted by ascending location.
- POST Edit binds `Image` (line 150) but never copies it (lines 157-161), so
  the stored photo never changes on Edit.

## Model

| member | source | states |
|---|---|---|
| `Text.Contains` | rej/Controllers/PeopleController.cs:41-44 | substring search is true exactly when the search text occurs at some position of the column |
| `Text.LessEqReflexive` | rej/Controllers/PeopleController.cs:49-52 | the location order puts every string at or before itself |
| `Text.LessEqTotal` | rej/Controllers/PeopleController.cs:49-52 | any two locations are comparable in the order used by OrderBy |
| `Text.LessEqTransitive` | rej/Controllers/PeopleController.cs:49-52 | the location order is transitive |
| `Text.LessEqAntisymmetric` | rej/Controllers/PeopleController.cs:49-52 | two locations each at or before the other are equal |
| `Query.WhereCount` | rej/Controllers/PeopleController.cs:41-44 | the filter keeps each row, with its multiplicity, exactly when name, surname, location or description contains the text, and drops all others |
| `Query.WhereSingle` | rej/Controllers/PeopleController.cs:41-44 | a single row is kept exactly when one of its four columns contains the text |
| `Query.WhereAppend` | rej/Controllers/PeopleController.cs:41-44 | the filter keeps the stored order: filtering a concatenation gives the concatenation of the filtered parts |
| `Query.WhereConsAppend` | rej/Controllers/PeopleController.cs:41-44 | the filter decides on the first row, then carries on with the rest |
| `Query.Filter` | rej/Controllers/PeopleController.cs:39-45 | a null or empty search returns the rows unchanged, in stored order; otherwise each row is kept, as often as it is stored, exactly when it matches |
| `Query.ParseSortOrder` | rej/Controllers/PeopleController.cs:46-60 | a sort order is chosen only by its own token; every other token, null included, chooses none |
| `Query.TokenRoundTrip` | rej/Controllers/PeopleController.cs:46-60 | each of the four tokens selects its own sort order, and no other input selects it |
| `Query.InOrderTotal` | rej/Controllers/PeopleController.cs:46-60 | every sort order compares any two rows |
| `Query.InOrderTransitive` | rej/Controllers/PeopleController.cs:46-60 | every sort order is transitive, so a sorted list is ordered pairwise |
| `Query.Insert` | rej/Controllers/PeopleController.cs:46-60 | inserting adds exactly the one row to the multiset of rows |
| `Query.ConsSorted` | rej/Controllers/PeopleController.cs:46-60 | a row at or before every row of a sorted list can head it |
| `Query.InsertBounded` | rej/Controllers/PeopleController.cs:46-60 | a lower bound of the inserted row and of the list bounds the result of inserting |
| `Query.InsertSorted` | rej/Controllers/PeopleController.cs:46-60 | inserting into a sorted list keeps it sorted |
| `Query.SortBy` | rej/Controllers/PeopleController.cs:49-58 | the sorted rows are a permutation of the input |
| `Query.SortBySorted` | rej/Controllers/PeopleController.cs:49-58 | the sorted rows are ordered by location (ascending or descending) or by the sex flag (false first or true first) |
| `Query.Order` | rej/Controllers/PeopleController.cs:46-60 | the result is a permutation of the input; a recognised token sorts by its order, and any other token leaves the order untouched (there is no default case) |
| `Query.LocationSortParm` | rej/Controllers/PeopleController.cs:34 | the location link is always a location token; it is the descending one exactly when the current order is null, empty or ascending by location |
| `Query.SexSortParm` | rej/Controllers/PeopleController.cs:35 | the sex link is always a sex token; it is the ascending one exactly when the current order is descending by sex |
| `Query.ToggleReverses` | rej/Controllers/PeopleController.cs:34-35 | on a page sorted by a column, that column's link reverses the direction, and following it twice returns to the current token |
| `Query.Index` | rej/Controllers/PeopleController.cs:32-62 | the listed rows are exactly the stored rows the search selects, as a permutation of the filtered rows; they are sorted by a recognised token and otherwise in stored order; the two column links are those of `LocationSortParm` and `SexSortParm`; the search text is echoed back |
| `Query.IndexSearch` | rej/Controllers/PeopleController.cs:39-45 | with a non-empty search, a row is listed exactly when one of the four columns contains the text (OR across columns), whatever the sort |
| `Query.SearchExample` | rej/Controllers/PeopleController.cs:39-45 | worked case: of a Paris row and a Sofia row, a search for "Paris" keeps only the Paris row |
| `Query.SortExample` | rej/Controllers/PeopleController.cs:46-60 | worked case: locations "B","A" sort to "A","B" ascending, stay "B","A" descending, and stay in stored order for an empty token |
| `Store.FindIndex` | rej/Controllers/PeopleController.cs:156 | finds a position holding the id, or none exactly when no row has that id; with unique keys it is the one such position |
| `Store.Find` | rej/Controllers/PeopleController.cs:126 | returns a stored row with that id, or null exactly when none exists |
| `Store.PersonExists` | rej/Controllers/PeopleController.cs:228-231 | true exactly when some stored row has the id |
| `Store.RemoveAt` | rej/Controllers/PeopleController.cs:223 | removes one row; with unique keys, the rows left are exactly the others, and the keys stay unique |
| `Store.QueryForOwnerId` | rej/Controllers/PeopleController.cs:233-237 | gives an id exactly when some user has the caller's e-mail, and that user row exists; with unique e-mails it is the id of the one such user |
| `Store.NextFreeId` | rej/Controllers/PeopleController.cs:110-111 | the key the store gives a new row is positive and above every existing key |
| `Access.Gate` | rej/Controllers/PeopleController.cs:197 | the `[Authorize]` attributes at lines 84, 95, 118 and 149 (any signed-in user) and `[Authorize(Roles = "Administrator")]` at lines 197 and 219: the action runs exactly for a signed-in caller who holds any required role; anonymous callers are challenged and callers missing the role are forbidden |
| `Access.Authorize` | rej/Controllers/PeopleController.cs:130-133 | fails exactly when no user has the caller's e-mail; denies only non-administrators; with unique e-mails, grants exactly an administrator or the owner |
| `Access.Details` | rej/Controllers/PeopleController.cs:65-81 | not found exactly when the id is null or unknown; otherwise shows the stored row with that id |
| `Access.EditGet` | rej/Controllers/PeopleController.cs:119-142 | anonymous callers are challenged; a null or unknown id is not found whoever asks; access-denied only for a non-administrator who is not the owner; the form only for an owner or administrator whom the policy accepts; a null fault exactly when the caller has no user row and the id is stored, administrators included (the lookup at line 130 calls line 236) |
| `Access.EditGetDecision` | rej/Controllers/PeopleController.cs:126-141 | for a stored row and a caller whose user row exists (without one, `Access.EditGet` states the null fault): non-owner non-administrators are denied; everyone else gets the form exactly when the policy succeeds, and a challenge when it fails |
| `Access.EditGetPolicyNotConsulted` | rej/Controllers/PeopleController.cs:130-141 | for a non-owner non-administrator, the answer is the same for every policy, so the policy is never reached |
| `Access.DeleteGet` | rej/Controllers/PeopleController.cs:197-214 | anonymous callers are challenged; non-administrators are forbidden whatever the record; administrators get the Details answer |
| `Access.Patch` | rej/Controllers/PeopleController.cs:156-161 | copies exactly sex, surname, name, description and location from the form; key, owner and photo are those of the stored row |
| `Access.PatchIdempotent` | rej/Controllers/PeopleController.cs:157-161 | patching twice with one form equals patching once |
| `Access.UploadImageFile` | rej/Controllers/PeopleController.cs:239-254 | no file gives no name; a file gives the token, an underscore, then the client's file name |
| `Access.UploadNamesDistinct` | rej/Controllers/PeopleController.cs:246 | two uploads with different tokens of equal length never get the same stored name |
| `Controller.PeopleController.constructor` | rej/Data/ApplicationDbContext.cs:22-33 | starts from tables that satisfy the key, unique-e-mail and owner-foreign-key constraints |
| `Controller.PeopleController.CreatePost` | rej/Controllers/PeopleController.cs:96-115 | anonymous: challenge. Invalid form: the form again, table unchanged. No user row: null fault, table unchanged. Otherwise one row is appended with a fresh key, the form's fields, the photo name, and the caller's own user id as owner; earlier rows are unchanged. The identity counter moves on by one exactly on success |
| `Controller.PeopleController.EditPost` | rej/Controllers/PeopleController.cs:150-194 | id mismatch: not found, table unchanged. Missing row: null fault. Non-owner non-administrator: access denied, table unchanged. Invalid form: View or Challenge by the policy, table unchanged. Otherwise the patched row is saved; a concurrent delete gives not found and a concurrent update gives a conflict fault. A save happens only for an owner or administrator with a valid form, and every row keeps its key, owner and photo |
| `Controller.PeopleController.DeleteConfirmed` | rej/Controllers/PeopleController.cs:220-226 | anonymous: challenge. Non-administrator: forbidden, table unchanged. Missing row: argument-null fault, table unchanged. Otherwise exactly the row with that id is removed and every other row is kept |

## Left out

- GET `Create` (rej/Controllers/PeopleController.cs:84-88) only renders an empty form behind `[Authorize]`; that gate is `Access.Gate`.
- View rendering, `ViewData`, routing, anti-forgery tokens, async/await, `Include(p => p.Owner)` and `AsNoTracking` are host plumbing with no effect on which rows are listed.
- `Constants.ADMINISTRATOR_ROLE` is not part of this model. One flag, `isAdmin`, stands both for the role in `[Authorize(Roles = "Administrator")]` (lines 197 and 219) and for `User.IsInRole(Constants.ADMINISTRATOR_ROLE)` (lines 130 and 162). The model therefore assumes that the constant is "Administrator".
- The Identity subsystem is not part of this model. The caller is a value: the name claim and Administrator membership. Anonymous and missing-role callers are handled by `Access.Gate` with the host's usual challenge and forbid answers.
- The "EditPolicy" handler and `IAuthorizationService` are not part of this model; the policy is an arbitrary parameter.
- Store collation is not modelled. `Contains` is exact, case-sensitive substring matching. OrderBy on text uses lexicographic order by character code.
- `Query.SortBy`: the store's ORDER BY does not promise an order among equal keys. The model claims only sortedness and permutation, not stability.
- Text columns are never null in the model. In the source, a null column never matches a search.
- E-mail lookup uses exact equality, not case-insensitive equality.
- The Users table is never changed here, and its other Identity columns are left out. The foreign key and the unique e-mail index (rej/Data/ApplicationDbContext.cs:24-32) are the invariant `Valid()`.
- The store's identity column is the counter `nextId`.
- `UploadImageFile` does not model writing the file, the images folder, or an I/O failure. The unique token from `Guid.NewGuid()` is a parameter.
- Real transactions and concurrency are not modelled. `SaveOutcome` says what the store reported. The other request's own update in `ModifiedConcurrently` is not modelled.
- Model binding and validation attributes: the form's validity is the boolean `modelValid`. Of the Edit form, `Image` is bound and then ignored, as in the source. `OwnerId` is not in the bind list, so the source's form never carries one; the model's `input.ownerId` is arbitrary, which covers more than the source can receive, and `Access.Patch` never copies it.
- rej/Migrations/20200329155508_migrena2.cs changes a column type and has no logic. rej/Models/User.cs is data shape only.
