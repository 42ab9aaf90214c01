# Book store service — Dafny model

A model of the in-memory book store behind the four HTTP handlers in
`src/server.ts`. The store holds the ordered `libros` sequence, seeded with four
literal records, and the `nextId` counter, which starts at 5. The handlers are:

- `GET /libros` lists the sequence.
- `GET /libros/buscar?name=…` does a case-insensitive substring search on the
  names, keeping store order.
- `GET /libros/:id` reads the id with `parseInt` and returns the first record
  with that id.
- `POST /libros` checks a loosely typed JSON body, mints `id = nextId++`,
  defaults the author to `"Desconocido"` and appends the record.

Express is gone. Each handler, list included, returns a `Response`: `Ok` (200),
`Created` (201), `BadRequest` (400) or `NotFound` (404). The last two carry the
exact `mensaje` text of the source.

Files:

- `wrappers.dfy` has `Option`.
- `text.dfy` (module `Text`) models `toLowerCase` and `includes`. Lower-casing
  covers ASCII `A`–`Z` and the Latin-1 capitals U+00C0–U+00DE except U+00D7. For
  those characters this is Unicode's mapping; every other character maps to
  itself. `includes` is a left-to-right scan, proved equal to the positional
  definition of a substring.
- `js_number.dfy` (module `JsNumber`) models `parseInt` with no radix:
  - it skips ECMAScript white space;
  - it reads an optional sign;
  - a `0x`/`0X` prefix switches it to hexadecimal;
  - it reads the longest run of digits and ignores the rest;
  - no digits gives NaN, modelled as `None`.

  It also models the decimal text `${id}` writes into the not-found message.
  The two are proved to round-trip.
- `books.dfy` (module `Books`) holds:
  - the `Book` record and the seed;
  - the JSON field values, with JavaScript truthiness and `typeof`;
  - the create guard and the author default;
  - the response messages;
  - the search and get-by-id queries as functions over the sequence;
  - the store invariant and the lemmas about all of these.
- `store.dfy` (module `Store`) holds the class `BookStore`. Its fields are
  `books`, `nextId` and a ghost count of successful creates. It has the four
  handlers as methods. The ghost predicate `Valid()` is kept by every method.
  `Session` is a client that makes a few requests (get id 2, a create without a
  year, a create without an author, list, get id 5) and states what the
  contracts let it conclude.

The store invariant (`Books.StoreInvariant`) says:

- every id is distinct and positive;
- every id is below `nextId`;
- `nextId` is positive.

`BookStore.Valid()` keeps it, together with the stronger fact that explains it:
the record at position `i` has id `i + 1` and `nextId == |books| + 1`. This holds
because nothing is ever removed or reordered.

Three behaviours of the handlers are easy to miss; the model follows the code:

- The create guard also rejects an empty `name` and a `year_of_publication`
  of `0`, because of the falsy checks on line 76.
- An empty-string `author` is replaced by `"Desconocido"` (line 87).
- Some segments that are not plain decimal numbers are accepted as ids, each
  for its own reason:
  - `"5abc"` reads as 5, because `parseInt` reads the longest digit prefix
    and ignores the rest;
  - `" 5"` reads as 5, because leading white space is skipped;
  - `"0x5"` reads as 5, because the `0x` prefix switches to hexadecimal
    (a plain decimal prefix reading would give 0).

## Model

| member | source | states |
|---|---|---|
| `Text.Lower` | src/server.ts:37-39 | `toLowerCase`, character by character: the result has the length of the input and no upper-case letter left |
| `Text.Contains` | src/server.ts:39 | `includes` as a left-to-right scan: the empty term is found in every text, and a term found is no longer than the text |
| `Text.LowerIdempotent` | src/server.ts:37-39 | lower-casing an already lower-cased text changes nothing |
| `Text.ContainsIff` | src/server.ts:39 | `includes` holds exactly when the term occurs at some position of the text |
| `Text.ContainsLower` | src/server.ts:37-39 | a term that occurs in a name still occurs in it after both are lower-cased |
| `JsNumber.ParseInt` | src/server.ts:53 | `parseInt` with no radix: a number is read only when the first character after the white space is a sign or a decimal digit |
| `JsNumber.IntToString` | src/server.ts:66 | the `${id}` text: non-empty, starting with `-` exactly for a negative id, and decimal digits after the sign |
| `JsNumber.ValueOfNatToString` | src/server.ts:66 | the decimal digits of the `${id}` text have the value of the id |
| `JsNumber.NatToString` | src/server.ts:66 | the id text is a non-empty run of decimal digits with no leading zero |
| `JsNumber.ParseIntOfIntToString` | src/server.ts:53 | `parseInt` reads back the decimal text of every integer, even when followed by text that cannot continue the number |
| `JsNumber.ParseIntNaN` | src/server.ts:53-57 | a segment that, after white space, starts with neither a digit nor a sign is NaN |
| `JsNumber.ParseIntSkipsWhite` | src/server.ts:53 | leading white space does not change what `parseInt` reads |
| `JsNumber.ParseIntOfEmpty` | src/server.ts:53 | the empty segment (`?? ''`) is NaN |
| `JsNumber.ParseIntOfSearchSegment` | src/server.ts:52-57 | the literal segment `buscar` is NaN, so a search request routed to get-by-id would answer 400 |
| `JsNumber.ParseIntIgnoresTrailingText` | src/server.ts:53 | `"12abc"` reads as 12 |
| `JsNumber.ParseIntSignedWithSpace` | src/server.ts:53 | `" -7"` reads as -7 |
| `JsNumber.ParseIntOfHexDigits` | src/server.ts:53 | after `0x` or `0X`, a run of hexadecimal digits followed by anything that is not one reads as the run's hexadecimal value; `0x` followed directly by a non-hexadecimal character (or nothing) is NaN |
| `JsNumber.ParseIntHex` | src/server.ts:53 | `"0x1f"` reads as 31 and `"0x"` is NaN |
| `Books.Seed` | src/server.ts:11-16 | the four literal records, with ids 1-4 at positions 0-3 and non-empty names and authors |
| `Books.Truthy` | src/server.ts:76 | JavaScript truthiness: a field is truthy exactly when it is not `undefined`, `null`, `false`, `0` or `""` |
| `Books.NewBook` | src/server.ts:83-88 | the record built from an accepted body carries the given id, a non-empty name, a non-zero year and a non-empty author |
| `Books.FilterFrom` | src/server.ts:38-40 | the filter over `books[i..]` keeps at most the records it scans; `SearchResultsSpec` states which ones |
| `Books.SearchResults` | src/server.ts:38-40 | `libros.filter(...)` returns at most as many records as the store holds; `SearchResultsSpec` states which ones, and in what order |
| `Books.ValidBody` | src/server.ts:76 | the body passes exactly when `name` is a non-empty string and `year_of_publication` a non-zero number |
| `Books.AuthorOf` | src/server.ts:87 | the author is the supplied value when it is a non-empty string and `"Desconocido"` otherwise |
| `Books.SearchResultsSpec` | src/server.ts:37-40 | the results are the matching records picked by strictly increasing positions (a subsequence in store order); a record is a result iff it is in the store and its lower-cased name contains the lower-cased term; the results are empty iff no record matches |
| `Books.SearchResponse` | src/server.ts:29-47 | 400 with the fixed message iff the term is missing or empty; otherwise 404 with the term in the message iff no record matches, else 200 with the non-empty filtered sequence |
| `Books.SearchCaseInsensitive` | src/server.ts:37-39 | terms that lower-case alike give the same results and the same status |
| `Books.SearchIgnoresTermCase` | src/server.ts:37 | searching for a term and for its lower-cased form gives the same results |
| `Books.SearchFindsSubstring` | src/server.ts:37-43 | a non-empty term that lower-cases like a piece of some record's name answers 200 and includes that record |
| `Books.FindFrom` | src/server.ts:60 | `find` gives the first position whose id is equal, and nothing iff no record has the id |
| `Books.GetResponse` | src/server.ts:52-68 | 400 iff the segment is NaN; otherwise 404 with the id in the message iff no record has the id, else 200 with the first record that has it |
| `Books.SeedState` | src/server.ts:11-18 | four seeded records with ids 1-4 at positions 0-3, `nextId = 5`, and the invariant holds |
| `Books.PositionsGiveInvariant` | src/server.ts:11-18 | ids equal to position plus one are distinct, positive and below `|books| + 1` |
| `Books.AppendPreservesInvariant` | src/server.ts:83-90 | appending a record minted with `nextId` and advancing the counter keeps ids distinct, positive and below the counter |
| `Books.AppendKeepsPositions` | src/server.ts:83-90 | appending the record with id `|books| + 1` keeps ids equal to positions plus one |
| `Books.FindUnique` | src/server.ts:60 | with distinct ids, `find` returns the only record that has the id |
| `Books.GetByPosition` | src/server.ts:52-68 | when ids are positions plus one, getting the decimal text of `k` answers 200 with the record at position `k - 1`, including a record a create just appended |
| `Books.GetUnknownId` | src/server.ts:60-67 | any id no record has answers 404 with `Libro con el ID <id> no encontrado.` |
| `Books.GetSeededTwo` | src/server.ts:13 | seeded id 2 is the 1984 record by George Orwell |
| `Books.SearchMundo` | src/server.ts:14 | `name=mundo` answers 200 and includes "Un Mundo Feliz" |
| `Store.BookStore.constructor` | src/server.ts:11-18 | the store starts with the four seeded records, `nextId = 5`, no creates, and the invariant holds |
| `Store.BookStore.List` | src/server.ts:23-25 | list answers 200 with the whole sequence unchanged, of length 4 plus the number of successful creates |
| `Store.BookStore.Search` | src/server.ts:29-47 | search answers what the search handler answers on the current sequence and changes nothing |
| `Store.BookStore.GetById` | src/server.ts:52-68 | get-by-id answers what the get-by-id handler answers on the current sequence and changes nothing |
| `Store.BookStore.Create` | src/server.ts:71-93 | a rejected body answers 400 and leaves sequence, counter and create count unchanged; an accepted one answers 201 with the record `{id: old nextId, name, year_of_publication, author or "Desconocido"}`, appends exactly that record after the unchanged earlier ones, advances `nextId` by one, and keeps the invariant |

## Left out

- Express setup, the JSON body middleware, route registration, `app.listen`
  and the console message (src/server.ts:1-8, 96-98) are I/O and framework
  plumbing. The handlers take the already-parsed query value, path segment and
  body fields as parameters.
- Route order (search before `/:id`, src/server.ts:28) is Express routing.
  The model assumes each request reaches its own handler.
  `JsNumber.ParseIntOfSearchSegment` shows what the reversed order would give.
- A repeated or nested `name` query parameter (an array or object) makes
  `name.toLowerCase` throw, and Express answers 500. The model only takes an
  absent parameter or a string.
- `Text.LowerChar`: only ASCII and Latin-1 capitals are lower-cased. Every
  character outside ASCII and Latin-1 is left as it is: Latin capitals such as
  U+0100 and U+0178, other scripts, U+212A KELVIN SIGN (which `toLowerCase`
  maps to ASCII `k`) and mappings that change the length (U+0130).
- `Books.Json`: JSON numbers are integers, so `year_of_publication` is an
  `int`. Not modelled: fractions, the precision loss of IEEE-754 doubles, and
  literals too large for a double (such as `1e400`), which parse to `Infinity`;
  the create guard accepts `Infinity` as a year, and `res.json` writes it as
  `null`.
- `JsNumber.ParseInt`: digit runs are read exactly. Numbers beyond 2^53 do not
  round the way `parseInt` and the id text would.
- `Store.BookStore.Create`: `nextId` is unbounded. It does not model the
  counter losing precision after 2^53 creates.
- `Body`: the request body is three fields. A missing body (for example, a
  request without a JSON content type under a framework version that leaves
  `req.body` undefined) would make the destructuring throw; this is not modelled.
- The `Libro` type (`./libros.model.js`) is not part of this model. The record
  has the four fields used on lines 12-15.
- The source has no concurrency, and none is modelled.
