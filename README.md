# Bookshelf API handlers in Dafny

This project models the request handlers of a small bookshelf HTTP service
(`src/handler.js`). The service keeps its books in one in-memory list that
all handlers share. It offers three operations:

- **create** (`addBook`, POST /books) checks the payload in a fixed order:
  the name first, then `readPage <= pageCount`. It derives `finished`,
  stamps equal `insertedAt`/`updatedAt`, pushes the record, re-checks that
  the new id is in the list, and answers 201, 400 or 500.
- **list** (`getAllBooks`, GET /books) answers with `{id, name, publisher}`
  summaries. It accepts optional `name`, `reading` and `finished` filters.
- **detail** (`getDetailBook`, GET /books/{id}) answers with the first
  stored book that has the id, or 404.

Files:

- `text.dfy` (module `Text`): lower-casing and substring search, used by
  the name filter.
- `catalog.dfy` (module `Catalog`): the `Book` record, the filters, `Where`
  (filter) and `Project` (map to summaries), and their laws.
- `handlers.dfy` (module `Handlers`): payload, query and response values,
  the `Store` class whose `books` field is the shared list, the three
  handlers and the lemmas that relate them.

The create handler changes the shared list, so it is a method of `Store`
with a `modifies` clause. The two queries only read, so they are functions
of the store's contents (`store.books`).

The random id (`nanoid(16)`) and the clock reading are parameters `id` and
`now` of `AddBook`. A JavaScript value that is missing is `None`. A query
string or name counts as present only when it is `Some` and non-empty,
which is JavaScript truthiness for strings. The framework's
`h.response(...).code(...)` becomes a `Response` value with code, status,
message and body. The detail handler returns a plain object, which the
framework sends with status 200, so its success is modelled as code 200.

A quirk of the list handler is kept on purpose. Each present filter
re-filters the whole store instead of the previous result. So only the last
present filter, in the order name, reading, finished, takes effect.
`GetAllBooks` computes this the way the source does, with successive
reassignments. Its contract states the resulting priority directly.

## Model

| member | source | states |
|---|---|---|
| Text.Lower | src/handler.js:60 | lower-casing keeps the length and maps each character on its own |
| Text.LowerIdempotent | src/handler.js:60 | lower-casing an already lower-cased string changes nothing |
| Text.ContainsIff | src/handler.js:60 | the recursive substring search holds exactly when the needle occurs at some position of the haystack |
| Catalog.NameFilterIgnoresCase | src/handler.js:60 | the name filter gives the same answer for a needle and its lower-cased form (it compares lower-cased name with lower-cased needle) |
| Catalog.Where | src/handler.js:62-68 | filtering never grows the list, and keeps a book exactly when it was stored and passes the filter |
| Catalog.WhereAppend | src/handler.js:57-69 | filtering distributes over concatenation, so the result keeps store order |
| Catalog.WhereFirst | src/handler.js:89 | element 0 of a non-empty filter result is the first stored book that passes, and every earlier book fails |
| Catalog.Project | src/handler.js:75-81 | the projection has one summary per book, at the same position, holding that book's id, name and publisher |
| Catalog.ProjectAppend | src/handler.js:75-81 | projecting a concatenation is the concatenation of the projections |
| Catalog.ProjectMembers | src/handler.js:75-81 | a summary is in the projection exactly when some book of the input has it |
| Handlers.Store.AddBook | src/handler.js:4-53 | a missing or empty name gives 400 (name message) and no change, whatever the pages are; otherwise readPage > pageCount gives 400 (page message) and no change; otherwise exactly one record is appended after the unchanged old ones, with the payload copied, finished == (readPage == pageCount), insertedAt == updatedAt == now, and the answer is 201 with the given id, never 500 |
| Handlers.GetAllBooks | src/handler.js:55-85 | always 200 success; the listed summaries are those of the store filtered only by finished if present, else only by reading if present, else only by name if present, else the whole store |
| Handlers.GetDetailBook | src/handler.js:87-106 | 200 with a book exactly when some stored book has the id, and then it is the first such book; otherwise 404 fail |
| Handlers.PushedIdFound | src/handler.js:33-46 | after the push, filtering by the new id finds at least one record, so the create handler's success check always passes |
| Handlers.AddThenGetDetail | src/handler.js:87-106 | after storing a book whose id no other book has, a lookup of that id answers 200 with that very record |
| Handlers.AddWithTakenIdIsShadowed | src/handler.js:89 | after storing a book whose id an older book already has, the lookup of that id answers as it did before the push |
| Handlers.ListAfterAdd | src/handler.js:29-33 | without filters, the list after a push is the earlier list with the new book's summary appended |
| Handlers.ListByReadingFlag | src/handler.js:62-65 | with a present reading value and no finished value, the list holds exactly the summaries of the books whose reading flag equals (value == "1") |
| Handlers.ListByFinishedFlag | src/handler.js:66-68 | with a present finished value, whatever the other filters, the list holds exactly the summaries of the books whose finished flag equals (value == "1") |

## Left out

- `src/routes.js`: a fixed method/path table that dispatches to the three handlers. It has no logic.
- The `./books` module is not part of this model. It is modelled as the `books` field of `Store`, which starts empty.
- `nanoid(16)` and `new Date().toISOString()` are foreign, nondeterministic calls. They are the parameters `id` and `now`. `AddBook` does not require the id to be fresh, because the source does not check it. `AddThenGetDetail` and `AddWithTakenIdIsShadowed` cover the two cases.
- Text.Lower: maps only the ASCII letters A-Z. The Unicode case mapping of `toLowerCase` is not modelled.
- JavaScript loose typing: `pageCount`, `readPage` and `year` are integers, text fields are strings and `reading` is a boolean. Undefined or non-numeric page values, for which `>` is false, are not modelled. Neither is a non-string `name` whose truthiness differs from "present and non-empty".
- The framework's response objects and HTTP serialisation are reduced to the `Response` datatype.
