# Wish list service: a verified model of its core

This project models the logic inside a small HTTP service that keeps a wish list in memory.
Web routing, request parsing and responses are left out.

- **Wish store** (`app/routes/wishes.py`). An ordered list of wishes and an id counter that
  starts at 1 and only grows. It supports create, get, update and delete by id, and a list
  query. The query keeps wishes priced below a maximum, keeps one category, and then sorts
  stably by price or title.
- **Upload check** (`app/routes/wishes.py`). Three checks run in a fixed order: the file name
  must hold no `..`, `/` or `\`; the content type must be `image/png` or `application/pdf`;
  the payload may be at most 5 MiB. An accepted upload reports its original name and its
  size in bytes.
- **Application module** (`app/main.py`):
  - the start-up gate that refuses a missing secret or one shorter than 16 characters;
  - the secret-info endpoint, which reports only the secret's length;
  - the demo item store, with create and get;
  - the two exception handlers that build `{"error": {"code", "message"}}` bodies.

Modules, one per component:

- `Wrappers`: `Option` and `Result`.
- `Errors`: the error kinds and the two handlers.
- `SecretGate`: the secret gate and the secret-info endpoint.
- `Items`: the item store, as a class.
- `Upload`: the upload check, as pure functions.
- `WishModel`: the wish record and the lookup by id.
- `WishQuery`: the list query's filters and its stable sort. The sort is a function on
  sequences plus an in-place insertion sort on an array, proved equal to that function.
- `Wishes`: the wish store, as a class whose methods loop over the list the way the source
  does.

Prices are whole numbers (cents, say) rather than floats. A missing price and a price of 0
count as "no price", just as Python treats them as falsy.

## What the code does not do

- Uploads: the code checks no content signature, so only the declared content type is
  looked at. The accepted name is the uploaded name, unchanged, with no random prefix. Every
  rejection body carries the fixed correlation id `"xxx"`, never a per-request one.
- The category filter compares exactly, so it is case-sensitive, and it is skipped when the
  category is empty. Categories are stored as sent, not lower-cased.
- Titles are stored as sent, not trimmed.

## Model

| member | source | states |
|---|---|---|
| Errors.MakeApiError | app/main.py:33-37 | an API error keeps its code and message; its status is the one given, 400 when none is given |
| Errors.ApiErrorHandler | app/main.py:40-45 | the response status is the error's status, and the body's code and message are the error's own |
| Errors.ApiErrorRoundTrip | app/main.py:40-45 | the handler loses nothing: an API error can be read back from its response, and every response arises from exactly one error |
| Errors.HttpExceptionHandler | app/main.py:48-54 | the code is always "http_error" and the status is kept; the message is the detail when the detail is a string, else "http_error" |
| Errors.HttpExceptionResponses | app/main.py:48-54 | two exceptions with string details get the same response exactly when they are equal; all non-string details with one status get the same response |
| SecretGate.ConfiguredSecret | app/main.py:8-11 | a test run fills in its default secret only when none is configured; a configured value is kept |
| SecretGate.LoadSecret | app/main.py:13-15 | the configuration is accepted exactly when the secret is present and has at least 16 characters; a rejection carries "JWT_SECRET missing or too short!" |
| SecretGate.TestModeDefaultPasses | app/main.py:10-15 | in a test run with no secret, the default secret passes the gate; outside a test run, a missing secret fails |
| SecretGate.GetSecretInfo | app/main.py:22-23 | the info holds the secret's length |
| SecretGate.SecretInfoEndpoint | app/main.py:26-29 | the endpoint answers "Secret loaded safely" with the secret's length |
| SecretGate.SecretInfoOnlyLength | app/main.py:22-29 | two secrets give the same response exactly when they have the same length; a secret that passed the gate reports at least 16 |
| Items.ItemStore.constructor | app/main.py:64 | the item store starts empty |
| Items.ItemStore.CreateItem | app/main.py:67-73 | an empty name, or one over 100 characters, gives "validation_error" (422) and changes nothing; otherwise the item numbered size + 1 is appended and returned; ids stay equal to position + 1 |
| Items.ItemStore.GetItem | app/main.py:76-81 | returns the first item with the id, or "not_found" (404) when no item has it; with ids equal to positions, it succeeds exactly for ids 1 to the store's size |
| Items.ItemErrorResponses | tests/test_errors.py:10-21 | the two item errors become 422 "validation_error" and 404 "not_found" bodies |
| Upload.HasParentSegment | app/routes/wishes.py:116 | two consecutive dots occur in the name exactly when ".." is a substring of it |
| Upload.UnsafeName | app/routes/wishes.py:116 | a name is unsafe exactly when "..", "/" or a backslash is a substring of it |
| Upload.SingleCharSlice | app/routes/wishes.py:116 | a one-character string is a substring exactly when that character occurs |
| Upload.CheckUpload | app/routes/wishes.py:114-141 | an upload is accepted exactly when the name is safe, the type is allowed and the size is at most 5 MiB; it is accepted under its original name and byte length |
| Upload.Status | app/routes/wishes.py:116-139 | a rejection's status is 413 exactly for a payload that is too large, and 400 for the others |
| Upload.BodyOf | app/routes/wishes.py:116-139 | every rejection body has its rejection's title and the correlation id "xxx"; only the 413 body carries a problem type, a `status` member (413, the response status) and a detail |
| Upload.PathCheckedFirst | app/routes/wishes.py:116-120 | an unsafe name is rejected as an invalid path, whatever the type and content |
| Upload.TypeCheckedBeforeSize | app/routes/wishes.py:122-139 | a safe name with a type outside the allow-list is rejected as an invalid type, whatever the size |
| Upload.SizeBoundary | app/routes/wishes.py:128-141 | with a safe name and an allowed type, exactly 5 MiB is accepted and anything longer is too large |
| Upload.TraversalNameRejected | tests/test_errors.py:36-44 | "../../evil.pdf" is rejected as a path even when declared as a PDF |
| Upload.BackslashNameRejected | app/routes/wishes.py:116-120 | a backslash in the name is a path rejection |
| Upload.PlainTextRejected | tests/test_errors.py:47-55 | "fake.txt" declared as text/plain is a type rejection |
| WishModel.WishNotFoundResponse | app/routes/wishes.py:87 | a missing wish becomes a 404 "http_error" body with the message "Wish not found" |
| WishModel.Find | app/routes/wishes.py:84-87 | the lookup returns the first position holding the id, or nothing exactly when no wish has it |
| WishModel.FindsOwnPosition | app/routes/wishes.py:84-86 | with strictly increasing ids, every stored wish is found at its own position |
| WishModel.FindAppended | tests/test_wishes.py:78-85 | a wish appended with an id above every stored id is found at the end, and lookups of older ids do not change (create, then get) |
| WishModel.FindPrefix | app/routes/wishes.py:84-86 | appending does not change where an id that is already present is found first |
| WishModel.RemoveAt | app/routes/wishes.py:107-110 | removing one wish keeps ids strictly increasing, and leaves no wish with the removed id |
| WishQuery.KeyOf | app/routes/wishes.py:74 | the sort key is a number exactly for a price sort of a wish with a non-zero price, and then it is that price; otherwise it is the title for a title sort and the empty string for a price sort |
| WishQuery.TextLessIrreflexive | app/routes/wishes.py:74 | string order is irreflexive |
| WishQuery.TextLessTransitive | app/routes/wishes.py:74 | string order is transitive |
| WishQuery.TextLessTotal | app/routes/wishes.py:74 | any two distinct strings are ordered one way or the other |
| WishQuery.KeyOrder | app/routes/wishes.py:74 | the sort-key order is a strict total order |
| WishQuery.KeyLeTransitive | app/routes/wishes.py:74 | "not greater than" on sort keys is transitive |
| WishQuery.Matches | app/routes/wishes.py:64-71 | a wish that passes the price condition has a price, strictly below the maximum, which is also its numeric price-sort key; one that passes the category condition has a category |
| WishQuery.Filter | app/routes/wishes.py:64-71 | a comprehension filter never lengthens the list |
| WishQuery.FilterMembers | app/routes/wishes.py:64-71 | a wish is kept exactly when it is in the list and passes the condition |
| WishQuery.FilterConcat | app/routes/wishes.py:64-71 | filtering keeps insertion order: it distributes over concatenation |
| WishQuery.FilterCons | app/routes/wishes.py:64-71 | the filter of a list with a head is the head's own verdict followed by the filter of the tail |
| WishQuery.FilterAllOrNone | app/routes/wishes.py:64-71 | a condition every wish passes changes nothing; one that no wish passes leaves nothing |
| WishQuery.SelectedMembers | app/routes/wishes.py:63-71 | kept exactly: wishes with a non-zero price strictly below the maximum (a price equal to it is dropped) and, for a non-empty category, an exactly equal category |
| WishQuery.SelectedConcat | app/routes/wishes.py:61-71 | the selection keeps insertion order |
| WishQuery.Selected | app/routes/wishes.py:61-71 | the selection never lengthens the list, and with no maximum and no non-empty category it is the whole list |
| WishQuery.SelectedExample | tests/test_wishes.py:45-70 | of wishes priced 700, 1500 and 20, a maximum of 100 keeps only the 20 one; a category keeps only its own wish |
| WishQuery.Insert | app/routes/wishes.py:74 | inserting adds exactly one element |
| WishQuery.InsertionSort | app/routes/wishes.py:74 | sorting keeps the length |
| WishQuery.InsertPermutes | app/routes/wishes.py:74 | insertion adds exactly the inserted wish to the multiset |
| WishQuery.InsertionSortPermutes | app/routes/wishes.py:74 | the sort's result is a permutation of its input |
| WishQuery.InsertAtLeast | app/routes/wishes.py:74 | inserting keeps a lower bound on every key |
| WishQuery.SortedCons | app/routes/wishes.py:74 | a list with a head is sorted exactly when its tail is sorted and no tail key is below the head's |
| WishQuery.InsertSorted | app/routes/wishes.py:74 | inserting into a sorted list keeps it sorted |
| WishQuery.InsertionSortSorted | app/routes/wishes.py:74 | the sort's result is non-decreasing in the key |
| WishQuery.BelowSorted | app/routes/wishes.py:74 | a key below the head of a sorted list equals no key in it |
| WishQuery.InsertFrontGroups | app/routes/wishes.py:74 | a wish placed in front of a sorted list it keys below joins the end of its key group, which was empty |
| WishQuery.InsertKeepsGroups | app/routes/wishes.py:74 | among the wishes with one key, an inserted wish lands after those already present |
| WishQuery.InsertionSortStable | app/routes/wishes.py:74 | for every key, the wishes with that key keep their original relative order |
| WishQuery.InsertionSortCorrect | app/routes/wishes.py:73-74 | the sort's result is sorted, a permutation, and stable |
| WishQuery.StableSortUnique | app/routes/wishes.py:73-74 | two sorted lists that agree on the order within every key group are equal, so any stable sort (Python's included) gives this result |
| WishQuery.HeadKeyIsLeast | app/routes/wishes.py:74 | the first key of a sorted list is not above any key of a list with the same key groups |
| WishQuery.InsertAt | app/routes/wishes.py:74 | an inserted wish goes after every element not greater than it and before every greater one |
| WishQuery.InsertBetween | app/routes/wishes.py:74 | a wish goes in between a sorted prefix with no key above it and a suffix whose keys are all above it |
| WishQuery.SortedPrefixAtMost | app/routes/wishes.py:74 | in a sorted list, no element before a position keys above a wish whose key is at least that of the element just before the position |
| WishQuery.InsertionSortStep | app/routes/wishes.py:74 | sorting one more element of the input is inserting it into the sorted shorter prefix |
| WishQuery.ShiftAbove | app/routes/wishes.py:74 | the shift moves every element keyed above the new wish one slot right, stopping at the first one not above it, and leaves the rest of the array alone |
| WishQuery.ShiftedContents | app/routes/wishes.py:74 | after the shift and the store into the gap, the prefix reads the old prefix with the new wish in place |
| WishQuery.InsertLast | app/routes/wishes.py:74 | one in-place step moves an element into the sorted prefix, leaving the rest of the array alone |
| WishQuery.SortInPlace | app/routes/wishes.py:74 | sorting the array in place leaves it holding the stable sort of its old contents |
| Wishes.WishStore.constructor | app/routes/wishes.py:13-14 | the store starts empty, with the counter at 1 and no id issued |
| Wishes.WishStore.Create | app/routes/wishes.py:37-47 | the new wish takes the counter's value as id; the counter goes up by exactly one; the wish is appended and nothing else changes; its id was never issued before and is above every stored id |
| Wishes.WishStore.Get | app/routes/wishes.py:79-87 | returns the first wish with the id, or "Wish not found" (404) when none has it; the store is not changed |
| Wishes.WishStore.Update | app/routes/wishes.py:90-99 | replaces every field but the id of the matching wish; its position and all other wishes stay; a missing id gives "Wish not found" and changes nothing; the counter is untouched |
| Wishes.WishStore.Delete | app/routes/wishes.py:102-111 | removes the matching wish and keeps the others in order; no wish with the id remains, so a second delete fails; a missing id changes nothing; the counter is untouched |
| Wishes.WishStore.List | app/routes/wishes.py:50-76 | without a sort field: the selection in insertion order; with one: a sorted, stable permutation of the selection; the store is not changed |
| Wishes.PricedSelectionComparable | app/routes/wishes.py:63-74 | with a maximum price given, every selected wish has a numeric price key, so a sort of the selection never compares a number with a string |
| Wishes.CreateDeleteCreate | tests/test_wishes.py:110-123 | create, delete, then create issues ids 1 and 2, and deleting the first id a second time fails with 404 "Wish not found": ids are never reused |

## Left out

- Routing, the router prefix, JSON responses, the test client and handler registration are
  framework plumbing. Only the decision each handler makes is modelled.
- The field constraints that pydantic checks before a handler runs are not modelled:
  - title length 1 to 100, positive price, notes up to 500 characters, category up to 50
    characters, URL syntax for the link;
  - `max_price > 0`, and the `sort_by` pattern. The pattern is modelled as the two-value
    type `SortField`.

  The store accepts any `WishData`.
- Request validation errors (the framework's own 422) do not pass through the two handlers
  and are not modelled.
- Prices are integers, not floats. Rounding and float comparison are not modelled.
- Wishes.WishStore.List: requires that a price sort sees either all wishes priced or none.
  Python raises `TypeError` when it compares a float with the `""` key of an unpriced wish;
  that server error is not modelled. `PricedSelectionComparable` shows the precondition
  always holds when a maximum price is given.
- Python's sort is Timsort; the model sorts by insertion. `StableSortUnique` shows that any
  stable sort gives the same result.
- The asynchronous file read and multipart parsing are left out. The payload is a byte
  sequence already in hand, and only its length matters.
- Environment variables and module reloading are left out. The secret is an optional
  string, and the test-run flag is a boolean parameter.
- The health endpoint returns a constant and is not modelled.
- Aliasing: the source returns the same dict it stores, so a later update is visible
  through an earlier result. The model stores and returns values.
- Concurrent requests are not modelled; every operation runs alone.
