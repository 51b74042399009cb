# In-memory item store of the API server

A Dafny model of the item store behind the server's REST API (`server.js`).
One module-level array holds the items. The server starts with three rows,
Alpha, Beta and Gamma, with ids 1, 2 and 3. Three routes use the array:

- `GET /api/items` lists the rows. Its optional `q` parameter is turned into
  text, lower-cased and trimmed. A non-empty key keeps only the rows whose
  lower-cased name includes it. The reply is `{count, data}`. A query object
  with its own `toString` key cannot be turned into text, so the handler
  throws and the route answers 500.
- `GET /api/items/:id` returns the first row with that id, or a 404
  `NOT_FOUND` reply.
- `POST /api/items` refuses a `name` that is not a non-empty string with 400
  "Name is required". Otherwise it appends a row whose id is one more than the
  last row's id (1 for an empty table) and replies 201 with the new row.

Files:

- `wrappers.dfy`: `Option`.
- `js_builtins.dfy`: the JavaScript runtime pieces the routes rely on, as
  functions with their characterising contracts. These are JSON body values,
  `typeof`, truthiness, `String()` of a query parameter, `toLowerCase`, `trim`
  and `includes`.
- `item_store.dfy`: `Item`, the id rule, the filter and the lookup as
  specification functions, and the class `Store`. `Store` holds the table as a
  `seq<Item>` field. `Create` is a method that modifies it. `List` and `Get`
  are functions that only read it, so they cannot change the table. The
  invariant `Valid()` says that ids strictly increase in table order. The seed
  establishes it and `Create` preserves it, so ids are unique and each new id
  is larger than every id before it. `CreateThenRead` at the end is an example
  client: one session of create, lookup and list. It shows what a caller can
  conclude from the contracts alone.

The list route returns rows in insertion order, with no cap on their number.

## Model

| member | source | states |
|---|---|---|
| `ItemStore.Seed` | server.js:11-15 | the starting table has three rows with positive ids that strictly increase, and no empty names |
| `ItemStore.Store.constructor` | server.js:11-15 | the store starts as the seed table and satisfies the id invariant |
| `ItemStore.NextId` | server.js:84 | the new id is 1 for an empty table; when ids increase, it is larger than every id in the table |
| `ItemStore.AppendKeepsIdsIncreasing` | server.js:84-89 | appending a row with the next id keeps ids strictly increasing and unique |
| `ItemStore.IncreasingIdsAreUnique` | server.js:84 | strictly increasing ids are pairwise distinct |
| `JsBuiltins.Truthy` | server.js:76 | a body field is falsy exactly when it is `undefined`, `null`, `false`, `0` or `""` |
| `JsBuiltins.TypeOf` | server.js:76 | `typeof` yields "string" exactly for strings, and "object" exactly for `null` and objects |
| `ItemStore.AcceptedName` | server.js:76-81 | the name gate accepts exactly the non-empty strings, and yields that string |
| `ItemStore.Store.Create` | server.js:73-95 | a refused name gives 400 "Name is required" and leaves the table unchanged; otherwise exactly one row is appended, with the next id, the given name and the clock reading, and the 201 reply carries that row; the id invariant is preserved and ids stay unique |
| `JsBuiltins.ToLower` | server.js:48-50 | lower-casing keeps the length and maps each character on its own |
| `JsBuiltins.ToLowerIdempotent` | server.js:48-50 | lower-casing an already lower-cased text changes nothing |
| `JsBuiltins.LeadingWhitespace` | server.js:48 | counts the white space at the start, stopping at the first other character |
| `JsBuiltins.TrailingWhitespace` | server.js:48 | counts the white space at the end, stopping at the last other character |
| `JsBuiltins.Trim` | server.js:48 | the trimmed text sits inside the input with only white space around it, and neither starts nor ends with white space |
| `JsBuiltins.TrimUnique` | server.js:48 | those two properties determine the trimmed text |
| `JsBuiltins.TrimBlank` | server.js:48 | a text made only of white space trims to empty |
| `JsBuiltins.Includes` | server.js:50 | `includes` is true exactly when the needle occurs at some position of the text |
| `JsBuiltins.IncludesEmpty` | server.js:49-51 | every text includes the empty string |
| `JsBuiltins.Join` | server.js:48 | joining no parts gives the empty text, and joining one part gives that part |
| `JsBuiltins.JoinAppend` | server.js:48 | joining one more part appends the separator and that part |
| `JsBuiltins.QueryText` | server.js:48 | `String()` of the query: it throws exactly for an object with its own `toString` key; otherwise missing gives "", a string gives itself, an array its comma-joined parts (a one-element array its element, an empty array ""), an object "[object Object]" |
| `JsBuiltins.QueryTextOfArrays` | server.js:48 | `String()` of the query gives the empty text for an empty array and the element's text for a one-element array; each further element adds a comma and that element |
| `JsBuiltins.TrimmedLowerHasNoUpper` | server.js:48 | trimming a lower-cased text leaves no upper-case ASCII letter |
| `ItemStore.QueryKey` | server.js:48 | the search key holds no upper-case ASCII letter and neither starts nor ends with white space |
| `ItemStore.NameMatches` | server.js:50 | an item matches exactly when its lower-cased name contains the key at some position; the empty key matches every item |
| `ItemStore.QueryKeyCaseInsensitive` | server.js:48 | a query text and its lower-cased form give the same search key |
| `ItemStore.QueryKeyIgnoresCase` | server.js:48 | any two query texts that differ only in the case of ASCII letters give the same search key |
| `ItemStore.BlankQueryGivesEmptyKey` | server.js:48-51 | a query text made only of white space, the empty text of a missing query included, gives the empty key |
| `ItemStore.FilterByName` | server.js:50 | every row kept matches the key, and the result is no longer than the table |
| `ItemStore.FilterCounts` | server.js:50 | each matching row value is kept as often as it occurs in the table, and no other row is kept |
| `ItemStore.FilterIsSubsequence` | server.js:50 | the filter keeps the table's order |
| `ItemStore.FilterUnique` | server.js:50 | any order-preserving selection of all matching rows and nothing else equals the filter |
| `ItemStore.FilterEmptyKeyKeepsAll` | server.js:49-51 | filtering with the empty key returns the whole table, so the empty-query shortcut agrees with the filter |
| `ItemStore.FilterAppend` | server.js:50 | after a row is appended, the filter returns the earlier result followed by the new row when it matches |
| `ItemStore.Store.List` | server.js:47-54 | answers 500 exactly when `String()` of the query throws; otherwise 200 where count equals the number of rows returned, an empty key returns the whole table, and otherwise exactly the matching rows in table order, a subsequence of the table |
| `ItemStore.FirstIndex` | server.js:59 | finds nothing exactly when no row has the id; otherwise gives the first row whose id equals it |
| `ItemStore.Store.Get` | server.js:57-70 | succeeds with status 200 exactly when some row has the id, and returns the first such row; otherwise 404 `NOT_FOUND` "Item not found" |
| `ItemStore.LookupNewRow` | server.js:59 | after a create, looking up the new id finds the new row at the end of the table |
| `ItemStore.LookupOldRow` | server.js:59 | appending a row never changes where an already-found id is found |

## Left out

- Express setup, CORS, JSON body parsing, routing and `app.listen` (server.js:1-8, 106-108) are framework wiring.
- The root route's fixed route list, the health and version routes, and the 404 fallback (server.js:18-44, 97-104) only shape fixed replies or read process data.
- `new Date().toISOString()` reads the clock. The constructor and `ItemStore.Store.Create` take the timestamps as string parameters and treat them as opaque.
- `Number(req.params.id)`: the conversion from the path text is not modelled. `ItemStore.Store.Get` takes its result as an `Option<int>`. `None` stands for NaN or a non-integer, which no stored id equals under `===`.
- `JsBuiltins.ToLower`: only the ASCII letters A-Z are mapped. Unicode case mapping is not modelled, including mappings that change a string's length.
- `ItemStore.NextId`: ids are unbounded integers. JavaScript numbers are IEEE-754 doubles, so past 2^53 adding one is inexact and ids could repeat. This is not modelled.
- A missing request body (`req.body` undefined) is not modelled. The `name` field is any JSON value or `Undefined`.
- NaN cannot come from a JSON body, so it is not represented. An overflowing literal such as `1e400` parses to Infinity. Infinity is truthy and of type "number", so the name check refuses it exactly as it refuses any non-zero `Num`.
- JavaScript strings are sequences of UTF-16 code units. A Dafny `string` is a sequence of Unicode scalar values. A name holding a lone surrogate, such as the JSON text `"\ud800"`, is accepted and stored by server.js:76-89, but `JsValue.Str` cannot represent it. `includes`, `trim` and `toLowerCase` agree with the model only on well-formed text.
- Query parameters are modelled as missing, a string, an array of strings or a nested object, with a flag for an own `toString` key. Arrays whose elements are themselves objects are not modelled.
- `ItemStore.Store.List`: when the handler throws, only the status 500 is modelled. The HTML page of Express's default error handler is not.
- The list route returns the stored array itself when the key is empty. The reply serialises it at once, so this aliasing has no observable effect and the model returns the sequence by value.
- Only the in-memory store of server.js is modelled.
