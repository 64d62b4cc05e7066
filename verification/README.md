# Todo app: cookie reader and JSON views

This project models the two pieces of the todo-list application whose
behaviour can be stated precisely, and proves properties of them.

- **`getCookie(name)`** (static/main.js). The browser script uses it to read
  Django's CSRF token from `document.cookie`. It splits the cookie string on
  `;` and trims each segment. It then takes the first segment that starts
  with `name=` and returns the `decodeURIComponent` of the rest of that
  segment, or `null` when no segment matches. Module `Cookie` (cookie.dfy)
  models the string functions the script relies on, over `seq<char>`:
  `split` with a one-character separator, `trim` with ECMAScript's
  whitespace set, and `substring` with its clamping and swapping of bounds.
  It defines the lookup as a pure function (`GetCookie`) and as the
  original early-exit loop (`ReadCookie`). It proves the lookup equal to a
  declarative "leftmost matching segment" statement, and proves the edge
  cases:
  - the empty string has no cookies;
  - `=` must follow the name directly;
  - the leftmost match wins;
  - everything after the first `=` is the value;
  - trailing whitespace is dropped.

- **The Django views `todos` and `todo`** (todos/views.py). These are the
  JSON endpoints for the collection (AJAX GET lists the records, AJAX POST
  creates one) and for a single record (AJAX PUT merges fields, AJAX DELETE
  removes it). Module `Views` (views.dfy) models each view as a pure
  function. It takes an abstract request and the database as a map from id
  to record, and returns the response (status code and content) together
  with the database as the request leaves it. The contracts give the full
  decision table of each view and say exactly what changes in the store
  and what does not. The lemmas relate requests to one another:
  - create, delete and update each change the listing by one row;
  - delete undoes create;
  - an unknown id gives 404 whatever the method or body;
  - PUT is idempotent.

Module `Wrappers` (wrappers.dfy) holds the `Option` type used for
JavaScript's `null` and for absent headers.

## Model

| member | source | states |
|---|---|---|
| Cookie.Trim | static/main.js:7 | the trimmed segment is no longer than the input and is empty or starts and ends with a non-whitespace character |
| Cookie.TrimIsUnique | static/main.js:7 | any slice with only whitespace before and after it, and that is empty or bounded by non-whitespace, is exactly the trimmed string |
| Cookie.TrimBounds | static/main.js:7 | the trimmed string is such a slice of the input: only whitespace is cut off on either side |
| Cookie.TrimIgnoresTrailingWhitespace | static/main.js:7 | appending whitespace to a segment never changes its trimmed form |
| Cookie.Split | static/main.js:5 | splitting always yields at least one piece |
| Cookie.SplitPiecesAvoidSeparator | static/main.js:5 | no piece of a split contains the separator |
| Cookie.SplitWithoutSeparator | static/main.js:5 | a string without the separator splits into itself alone |
| Cookie.JoinSplit | static/main.js:5 | joining the pieces with the separator gives back the original string |
| Cookie.SplitJoin | static/main.js:5 | splitting a join of separator-free pieces gives the pieces back, so split and join are inverse |
| Cookie.SplitFirstPiece | static/main.js:5 | a separator-free prefix followed by the separator becomes the first piece, whole |
| Cookie.SplitAtSeparator | static/main.js:5 | splitting `a;b` is splitting `a` followed by splitting `b` |
| Cookie.SplitExtendsLast | static/main.js:5 | appending separator-free text only extends the last piece |
| Cookie.Substring | static/main.js:9-10 | for in-range bounds `substring` is the slice, and an end past the string is clamped to its length |
| Cookie.Matches | static/main.js:9 | a trimmed segment matches exactly when it is longer than the name, starts with the name, and has `=` right after it |
| Cookie.RawValue | static/main.js:10 | the raw value of a matching segment is the text after `name=`: the segment is `name` + `=` + value |
| Cookie.RawValueOfPair | static/main.js:9-10 | `name=value` matches `name`, and reading it back yields `value` (round trip) |
| Cookie.GetCookie | static/main.js:3-4 | an empty cookie string gives null |
| Cookie.FirstMatchMeetsSpec | static/main.js:6-13 | the segment search returns null when no trimmed segment matches, and otherwise the decoded value of the leftmost matching segment |
| Cookie.FirstMatchResultUnique | static/main.js:6-13 | that declarative statement admits one result only |
| Cookie.GetCookieIsLookup | static/main.js:2-16 | a value is the result of getCookie if and only if it satisfies the leftmost-match statement over the split cookie string |
| Cookie.NullIffNoSegmentMatches | static/main.js:2-16 | getCookie returns null if and only if no trimmed segment is `name=...` |
| Cookie.FirstMatchAppend | static/main.js:6-13 | searching `a + b` returns the result from `a` when it has one, and otherwise the result from `b` |
| Cookie.LeftmostMatchWins | static/main.js:6-12 | once a cookie string yields a value, cookies appended after another `;` never change it |
| Cookie.NonMatchingCookieSkipped | static/main.js:5-9 | a leading cookie that does not match is skipped: the result is that of the rest of the string |
| Cookie.WhitespaceOnlyIsNull | static/main.js:4-15 | a cookie string of whitespace only gives null |
| Cookie.FirstMatchIgnoresTrailingWhitespace | static/main.js:6-10 | whitespace added to the last segment does not change the search |
| Cookie.TrailingWhitespaceIgnored | static/main.js:5-10 | whitespace at the end of the cookie string never changes the result |
| Cookie.ValueHasNoTrailingWhitespace | static/main.js:7-10 | every value found is the decoding of the text after `name=` in some segment, and that text never ends in whitespace |
| Cookie.SingleCookie | static/main.js:5-10 | a cookie string without `;` whose trimmed form is `cookie[i..j]` gives the decoded raw value of `cookie[i..j]` if it matches, and null otherwise |
| Cookie.ExampleBareNameNotFound | static/main.js:9 | a bare `csrftoken` with no `=` is not found |
| Cookie.ExampleLongerNameNotFound | static/main.js:9 | `csrftokenX=1` does not match `csrftoken` |
| Cookie.ExampleTokenAfterAnotherCookie | static/main.js:5-10 | `a=1; csrftoken=xyz` yields the decoding of `xyz` |
| Cookie.ExampleSpaceBeforeToken | static/main.js:7-10 | a leading space before `csrftoken=xyz` is trimmed away |
| Cookie.PairAfterSpace | static/main.js:7-10 | any `name=value` preceded by a space, with no `;` in it and no whitespace at its ends, yields the decoded `value` |
| Cookie.ExampleValueAfterFirstEquals | static/main.js:10 | `k=a=b` yields the decoding of `a=b`, including with trailing spaces |
| Cookie.ReadCookie | static/main.js:2-16 | the early-exit loop returns the leftmost-match result, equal to `GetCookie` |
| Views.UpdateFields | todos/views.py:63 | the fields to change are the `payload` object, or none when `payload` is absent |
| Views.Merge | todos/views.py:67-68 | task and completed each take the payload value when the key is present and keep the stored value otherwise |
| Views.TodosView | todos/views.py:12-48 | status codes; non-AJAX GET renders the home page and other non-AJAX methods give 400; AJAX GET lists every record; invalid JSON gives 400 and other methods 405; a POST with a full payload adds exactly one record and returns "Todo added!"; other bodies give 500; every non-creating request leaves the store unchanged |
| Views.TodoView | todos/views.py:51-81 | non-AJAX gives 400; an unknown id gives 404 before any method or body check; invalid JSON gives 400; other methods give 405; PUT merges only that record; DELETE removes only that record; only those two change the store |
| Views.ListingMembers | todos/views.py:20 | a row is listed exactly when it carries the id, task and completed of a stored record |
| Views.ListingWithout | todos/views.py:20 | removing one record removes exactly its row from the listing |
| Views.ListingSize | todos/views.py:20 | the listing has one row per record |
| Views.CreateAddsOneRow | todos/views.py:35-36 | a successful POST grows the store, and the listing, by exactly the new record |
| Views.DeleteRemovesOneRow | todos/views.py:73-76 | a successful DELETE shrinks the store, and the listing, by exactly that record |
| Views.UpdateReplacesOneRow | todos/views.py:60-70 | a successful PUT replaces that record's row with the merged one and keeps every other row |
| Views.CreateThenDeleteRestores | todos/views.py:73-76 | deleting the record a POST has just created restores the store as it was before the POST |
| Views.UnknownIdIsNotFoundWhateverTheRequest | todos/views.py:54-56 | for an unknown id, every AJAX request gets the same 404 and no change, whatever its method or body |
| Views.UpdateIsIdempotent | todos/views.py:67-69 | sending the same PUT twice has the effect of sending it once |
| Views.UpdateWithoutPayloadChangesNothing | todos/views.py:63-70 | a PUT without a `payload` key returns "Todo updated!" and changes nothing |
| Views.UpdateWithOwnValuesChangesNothing | todos/views.py:67-69 | a PUT whose payload repeats the record's own values changes nothing |

## Left out

- `getAllTodos`, `addTodo`, `updateTodo` and `deleteTodo` (static/main.js:18-125) are left out. They are network fetches, HTML string injection into the page, and console logging.
- `decodeURIComponent` is the parameter `decode`, treated as a total function. Its percent-decoding and the URIError it throws on a malformed escape are not modelled.
- Characters are Unicode scalar values, while JavaScript strings are UTF-16 code units. `name.length` and `substring` therefore agree with the model only for text in the Basic Multilingual Plane. Cookie names and values are ASCII in practice.
- `document.cookie` is an explicit argument. The browser's cookie store is not modelled.
- The database is a map from id to record. The ORM, the table, and `todos/models.py` are not part of this model. Field types are not coerced: a record holds the JSON values handed to the ORM, and an ORM failure on an ill-typed value is not modelled.
- The database-failure 500 response of the listing (todos/views.py:22-24) is left out, because it depends on runtime database exceptions.
- Record ids are allocated by the database. The new id is the parameter `newId`, which must be any key not yet in the store.
- The listing has no `order_by`, so its row order is unspecified. The listing is modelled as a set of rows.
- `json.loads` is abstracted: a body is either `Invalid` (JSONDecodeError) or a parsed JSON value. JSON numbers are integers in the model. A body that is not valid UTF-8 is not modelled.
- Django's rendering of `home.html`, of the 404 page and of the 500 page is abstracted to a content tag. The `home` view (todos/views.py:8-9) is left out.
- Request headers other than `X-Requested-With` are not modelled, and neither is the CSRF check Django's middleware runs before the views.
