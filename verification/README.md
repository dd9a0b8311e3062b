# Company site: API state machine and page rules in Dafny

This project models the company-website backend and the rules its browser
script applies to the pages.

The backend is an Express server over a SQLite file with five tables:
products, posts, projects, messages and subscribers. Here each table is a
map from id to row, plus the AUTOINCREMENT counter. Every HTTP handler is a
pure function from the server state and a request to a status, a JSON body
and the next state:

- list, get, create, update and delete for products, posts and projects;
- the contact form and the message list;
- newsletter subscription and the subscriber list;
- statistics and health;
- the start-up seeding of empty tables.

The five shared handlers are written once, in `Resource`, over any table.
The error strings name the verb and the entity, exactly as the server
builds them.

Whether the database answers at all is a flag, `online`, in the state. When
it is false, every handler that touches the store answers 500. The contact
and subscribe checks run before the store is touched, so they still answer
400.

The frontend part covers:

- the mobile menu toggle;
- the FAQ accordion;
- the category filter buttons of the products, projects and blog pages;
- the blog search box;
- the excerpt a post card shows.

Files:

- `optional.dfy`: `Option`, a value that may be absent, used by every other module.
- `js_values.dfy`: JavaScript truthiness, and `parseInt` as the `limit` query parameter goes through it.
- `tables.dfy`: a table with AUTOINCREMENT ids, and its id-ordered scan.
- `listing.dfy`: `ORDER BY created_at DESC` with the optional `LIMIT`.
- `resource.dfy`: the five shared handlers.
- `entities.dfy`: rows, request bodies, NOT NULL columns and the JSON array columns.
- `server.dfy`: the server state, every route, the request dispatcher, request traces and seeding.
- `server_props.dfy`: properties that relate several requests.
- `frontend.dfy`: the page rules.

Four behaviours of the code shape the contracts below:

- Create and update send every column as given. So a product, post or project body that lacks a NOT NULL field is refused by the database, and the answer is 500, not 400. `ProductCreateNeedsRequiredFields` states this.
- For the same reason, an omitted `icon` or `author` is stored as NULL. The column defaults (`📦` for products, `📝` and `'GenZ Smart Team'` for posts, `🚀` for projects; `api/server.js:68`, `83`, `84`, `97`) are never applied by the API. `PostRoundTrip` shows the NULL coming back.
- An update of an id that does not exist answers 200. The update checks NOT NULL only when a row matches, so a body missing fields is then also a 200.
- A `limit` applies whenever `parseInt` gives a truthy number, not only when it is a positive integer:
  - `5abc` limits to 5;
  - `0x10` limits to 16;
  - a negative number reaches SQLite, which treats it as no limit.
  `RowLimit` states this behaviour; `TrailingTextLimit`, `HexLimit` and `NegativeLimitIgnored` state the three cases.

## Model

| member | source | states |
|---|---|---|
| JsValues.ParseIntDecimal | api/server.js:212 | a decimal numeral, followed by anything that is not a digit or an `x`, parses to its own value |
| JsValues.ParseIntNegative | api/server.js:212 | `-N` parses to the negative of N |
| JsValues.ParseIntNoDigits | api/server.js:212 | text whose first non-blank character is neither a sign nor a digit parses to NaN |
| Tables.Insert | api/server.js:64 | an AUTOINCREMENT insert takes the counter itself as the new id, which is above every id in the table; it stores exactly that row and raises the counter by one |
| Tables.Scan | api/server.js:219 | the full table read returns every stored row exactly once, in increasing id order |
| Listing.RowLimit | api/server.js:212-217 | a LIMIT is appended exactly when the parameter is a non-empty string whose `parseInt` is neither NaN nor 0, and it carries that number |
| Listing.SortNewestFirst | api/server.js:213 | `ORDER BY created_at DESC` yields a permutation of the rows, newest first |
| Listing.List | api/server.js:210-219 | a list returns distinct stored rows, newest first, as many as the bound lets through (all when the bound is absent or negative) |
| Listing.ListKeepsNewest | api/server.js:213-217 | every row a limited list leaves out is no newer than any row it returns |
| Listing.ListAll | api/server.js:213-219 | without a usable limit, the list holds every stored id exactly once |
| Listing.ListDecimalLimit | api/server.js:212-217 | `?limit=N` with N > 0 returns min(N, row count) rows |
| Listing.ZeroLimitIgnored | api/server.js:212-215 | `?limit=0` puts no bound on the list |
| Listing.NonNumericLimitIgnored | api/server.js:212-215 | `?limit=abc` puts no bound on the list |
| Listing.TrailingTextLimit | api/server.js:212-217 | `?limit=5abc` bounds the list at 5, because `parseInt` stops at the first non-digit |
| Listing.HexLimit | api/server.js:212-217 | `?limit=0x10` bounds the list at 16, because `parseInt` without a radix reads a `0x` prefix as hexadecimal |
| Listing.NegativeLimitIgnored | api/server.js:212-217 | `?limit=-N` returns every row |
| Resource.ListAction | api/server.js:210-232 | 500 `Failed to fetch <plural>` when the store fails; otherwise 200 with the limited newest-first rows, each shown as stored |
| Resource.GetAction | api/server.js:235-247 | 500 when the store fails; 404 `<Title> not found` for an absent id; otherwise 200 with that row as stored |
| Resource.CreateAction | api/server.js:250-263 | 201 exactly when the store is up and the NOT NULL columns are filled, storing the row under a fresh id it returns; otherwise 500 `Failed to create <singular>` and nothing changes |
| Resource.UpdateAction | api/server.js:266-279 | 200 exactly when the store is up and the id is absent or the row is complete; only the matched row changes, and it keeps its creation time; an absent id changes nothing |
| Resource.DeleteAction | api/server.js:282-290 | 200 whenever the store is up, removing exactly that id and keeping every other row and the counter |
| Entities.EncodeList | api/server.js:224 | the stored array column is never NULL and reads back as the submitted list, or `[]` when none was sent |
| Entities.ProductRow | api/server.js:250-256 | the insert succeeds exactly when name, description and category are present; the fields are stored as sent, the features as sent or `[]` |
| Entities.PostRow | api/server.js:329-335 | the insert succeeds exactly when title, content and category are present; every field is stored as sent, an omitted excerpt, icon or author as NULL |
| Entities.ProjectRow | api/server.js:416-422 | the insert succeeds exactly when name, description and category are present; technologies are stored as sent or `[]` |
| Server.Fresh | api/server.js:59-124 | the freshly created schema is empty and satisfies the invariants |
| Server.Contact | api/server.js:463-482 | an incomplete form gets 400 and changes nothing, even with the store down; otherwise 500, or 201 with exactly one new message under the next id |
| Server.Subscribe | api/server.js:500-518 | an email that is falsy or lacks `@` gets 400 before the store is touched; a stored email gets 409; otherwise 201 with one new subscriber; the emails stay unique |
| Server.Health | api/server.js:201-203 | 200 with status `OK` and the current time, and the state is untouched |
| Server.ListMessages | api/server.js:485-493 | 500 `Failed to fetch messages` when the store fails; otherwise 200 with every stored message exactly once, newest first, with no limit; the state is untouched |
| Server.ListSubscribers | api/server.js:521-529 | 500 `Failed to fetch subscribers` when the store fails; otherwise 200 with every stored subscriber exactly once, newest first, with no limit; the state is untouched |
| Server.Stats | api/server.js:536-555 | 500 `Failed to fetch statistics` when the store fails; otherwise 200 with the row count of each of the five tables; the state is untouched |
| Server.Handle | api/server.js:201-555 | every route keeps the schema invariants (valid ids, unique emails) and never lowers an id counter |
| Server.Run | api/server.js:201-555 | any sequence of requests keeps the schema invariants |
| Server.FirstMissing | api/server.js:150-152 | the number of catalog rows before the first one that lacks a NOT NULL field: all rows before it are complete, and the row at it is not |
| Server.InsertAll | api/server.js:150-152 | the loop inserts the rows before the first incomplete one and stops there, so the table and its counter grow by exactly that many; it reports success exactly when every row is complete |
| Server.InsertAllStores | api/server.js:150-152 | the rows that went in are the catalog rows before the first incomplete one, in order, under the ids that follow the counter; the rows already there stay as they were, and nothing else appears |
| Server.SeedData | api/server.js:136-194 | seeding keeps the invariants and touches only products, posts and projects |
| ServerProps.ProductRoundTrip | api/server.js:250-258 | a product created with 201 reads back by its id with the fields sent, the features as sent or `[]`, and its creation time |
| ServerProps.ProjectRoundTrip | api/server.js:416-424 | a created project reads back with its client, and with its technologies as sent or `[]` |
| ServerProps.PostRoundTrip | api/server.js:329-337 | a created post reads back exactly as sent, with the omitted optional fields as NULL |
| ServerProps.ProductCreateNeedsRequiredFields | api/server.js:63-67 | a product create succeeds exactly when the store is up and the three NOT NULL fields are present; otherwise 500 and no change |
| ServerProps.DeleteThenGet | api/server.js:282-290 | after a delete, a get of that id answers 404 `Product not found` |
| ServerProps.MissingProductNoOps | api/server.js:266-290 | an update or delete of an absent id answers 200 and changes nothing |
| ServerProps.ContactThenListed | api/server.js:463-489 | an accepted message appears in the message list, which grows by exactly one |
| ServerProps.SubscribeTwice | api/server.js:500-518 | a second subscription of the same email gets 409 and changes nothing, and exactly one subscriber holds that email |
| ServerProps.RunGrows | api/server.js:64 | along any sequence of requests no id counter decreases, and availability is unchanged |
| ServerProps.IdsNeverReused | api/server.js:64 | after any sequence of requests, a new product gets an id above every id handed out before, deleted ones included |
| ServerProps.StatsMatchLists | api/server.js:536-550 | each statistic equals the length of the matching unlimited list |
| ServerProps.StatsFollowWrites | api/server.js:536-550 | a successful product create raises the product count by one and leaves the posts, projects, messages and subscribers counts as they were; deleting an existing product lowers the product count by one |
| ServerProps.SeedSkipsPopulated | api/server.js:139-176 | a products, posts or projects table that already has rows is left exactly as it was |
| ServerProps.SeedTableFills | api/server.js:149-152 | seeding one empty table with complete rows stores exactly those rows, in order, under the ids from the counter on, each created at the seeding time |
| ServerProps.SeedDataByTable | api/server.js:136-194 | with a complete catalog no insert fails, so each table is seeded from its own catalog as if alone |
| ServerProps.SeedFillsEmpty | api/server.js:139-188 | with a complete catalog and the store up, every empty table holds exactly its catalog's rows, in catalog order, under consecutive ids from its counter: catalog entry `k` is stored under id `nextId + k` as the row the insert binds for it |
| ServerProps.SeedFillsCount | api/server.js:139-188 | with a complete catalog and the store up, every empty table ends with as many rows as its catalog |
| ServerProps.SeedAbortsOnFailure | api/server.js:136-194 | an incomplete product entry seeded into an empty table ends the seeding: posts and projects stay as they were |
| ServerProps.SeedIdempotent | api/server.js:136-194 | running the seed again with the same complete catalog changes nothing |
| Frontend.ToggleClick | js/main.js:26-30 | a toggle click flips the menu and the toggle, and locks page scrolling exactly when the menu is open |
| Frontend.ToggleTwice | js/main.js:26-30 | on a page whose toggle, menu and lock agree, a second toggle click undoes the first |
| Frontend.LinkClick | js/main.js:33-38 | a link click shuts the menu and unlocks scrolling |
| Frontend.NavStaysInStep | js/main.js:26-39 | from a page load, any clicks keep toggle, menu and scroll lock in agreement |
| Frontend.LockFollowsMenu | js/main.js:26-39 | after at least one click, the scroll lock matches the menu from any starting state |
| Frontend.FaqClick | js/main.js:558-567 | after a click at most one item is open: the clicked item flips and every other closes |
| Frontend.FaqOutcomes | js/main.js:558-567 | clicking an open item closes all; clicking a closed one leaves it as the only open item |
| Frontend.FaqClickTwice | js/main.js:558-567 | clicking the same question twice leaves only that question open, and only if it was open before; every other item is closed |
| Frontend.SelectButton | js/main.js:171-172 | exactly the clicked filter button carries `active` |
| Frontend.ApplyFilter | js/main.js:179-184 | a card is shown exactly when the filter is `all` or equals the card's category |
| Frontend.FiltersSeparate | js/main.js:357-361 | two different named filters never both show a card; a card's own category shows it |
| Frontend.UncategorisedHidden | js/main.js:487-491 | a card without a category is hidden by every named filter |
| Frontend.IncludesIff | js/main.js:336 | `includes` holds exactly when the query occurs at some position |
| Frontend.Search | js/main.js:328-340 | a card stays visible exactly when its lower-cased title or paragraph includes the lower-cased query |
| Frontend.EmptyQueryShowsAll | js/main.js:328-340 | an empty query shows every card |
| Frontend.SearchIgnoresCase | js/main.js:329-334 | a query and its lower-cased form show the same cards |
| Frontend.TitleHitShown | js/main.js:333-336 | a card whose title contains the query as typed is shown |
| Frontend.Teaser | js/main.js:215 | the card text is the excerpt when truthy, else the first `width` characters of the content, always followed by `...` |
| Frontend.TeaserWidthsAgree | js/main.js:248 | the home page (100) and the blog page (150) show the same text unless a post without an excerpt has content longer than 100 characters |
| Frontend.EllipsisMatchesEveryCard | js/main.js:248 | every blog card's teaser text ends in `...`, so that query shows them all |

## Left out

- Express routing, JSON body parsing, CORS, static file serving, the catch-all route, `listen` and the shutdown handler are left out. Requests arrive already decoded as a `Request` value.
- SQLite failures other than "the store does not answer", such as a full disk or a locked file, are left out. All of them map to the same 500 as `online == false`.
- Timestamps are an abstract `now: nat` passed by the caller. `CURRENT_TIMESTAMP`'s one-second resolution and the ISO text format are not modelled.
- Ties in `ORDER BY created_at DESC`: SQLite leaves their order unspecified. The contracts promise only newest-first order and a permutation.
- A route `:id` is an integer. SQLite's conversion of text such as `"01"` or `"abc"` to an integer key is not modelled.
- Body fields are strings or absent. A number or object sent where a string is expected is not modelled.
- `JSON.stringify`/`JSON.parse` of the array columns are modelled as an exact round trip. A column written outside the API with invalid JSON, which makes `JSON.parse` throw, is not modelled.
- JsValues.ParseInt: numbers beyond double precision are not modelled, and neither is leading white space other than the ASCII spaces, the no-break space and the byte-order mark.
- Frontend.Lower: only ASCII letters are lower-cased. The Unicode case mapping of `toLowerCase` is not modelled.
- Frontend.Teaser: the model cuts at characters, not at UTF-16 code units as `substring` does.
- The seed catalog's content is a parameter (`Catalog`). Only its shape matters to the properties.
- AUTOINCREMENT's maximum id and the resulting `SQLITE_FULL` error are not modelled.
- Concurrency is left out. Requests are handled one at a time, in the order of the trace.
- Page rendering, `fetch`, fallback content, `formatDate`, scroll animations, counters and the contact and newsletter form submissions in the browser are left out.
