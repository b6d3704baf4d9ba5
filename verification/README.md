# Comic-book catalog — a Dafny model

This project models the core of a small comic-book catalog. It has three parts:

- a Flask REST resource over four SQLite tables (publishers, comic books, genres and the comic/genre association rows);
- the React catalog view that lists, selects and deletes comics;
- the React application shell, with its search box and route table.

The database is four finite maps from primary key to row (`Store.Db`). The server's handlers are pure functions. Each takes a database and returns the status code, the JSON body and the database after the request (`ComicBookResource.Reply`).

A query without `ORDER BY` returns rows in an order the program does not control. That order is a parameter (`Store.Scan`). `Store.ValidScan` requires only that each table is listed completely and without repetition. Every property about a single database state holds for every row order. The properties that compare the listing before and after a delete use one post-delete order: the earlier order with the removed rows left out (`ComicBookResource.ScanAfterDelete`). The client view's state is the pair of its two hooks, the cached list and the selected comic. `App.AppState` holds the typed term and the location. The location is the path handed to `navigate` as the browser reports it back, with its dot segments resolved (`App.BrowserPath`).

The properties proved connect the pieces end to end:

- a typed search term reaches the server's `ILIKE` filter untrimmed and unchanged, unless it encodes to a dot segment (`.` or `..`), which the browser resolves away from the search route;
- the listing holds exactly the matching comics;
- creating a comic and fetching it back shows what was submitted;
- updates only change the fields sent;
- deletes cascade to the association rows and leave every other comic reading the same;
- after a delete, the client's cache still equals the server's listing.

Module layout:

- `wrappers.dfy`, `seqs.dfy` and `text.dfy` hold shared datatypes, sequence lemmas and string functions.
- `sqllike.dfy` holds SQLite's `LIKE`/`ILIKE`.
- `store.dfy` holds the tables.
- `readshape.dfy` holds the JSON read shape.
- `resource.dfy` holds the REST handlers.
- `comicbooklist.dfy` holds the catalog view.
- `app.dfy` holds the shell.
- `sync.dfy` holds the client–server properties.
- `formsubmission.dfy` holds the finding below.

What the code sends and stores:

- A listed comic's `genres` are genre *names*, not `{id, name}` objects.
- `reviews` is an integer column, set to 0 on creation.
- A create answers with a message, not with the created comic.
- An update ignores any genre ids it is sent and answers without `genres`.
- An unknown publisher id is stored as given and reads back as "Unknown Publisher". It is not rejected.

## Model

| member | source | states |
|---|---|---|
| ComicBookResource.SelectedIds | server/app.py:50-54 | The comics the listing takes are each stored comic whose title passes the search filter, each exactly once. An absent or empty `search` argument keeps every comic. |
| ComicBookResource.List | server/app.py:49-66 | The collection GET answers 200 and changes nothing. Its items are the read shapes of exactly the comics matching the search argument, each once. |
| ComicBookResource.ListWithoutSearchIsEverything | server/app.py:50-54 | With no `search` argument, or an empty one, the listing shows every stored comic exactly once. |
| ComicBookResource.ListSearchIsCaseInsensitiveSubstring | server/app.py:51-52 | For a query without `%` or `_`, the listing shows exactly the comics whose lower-cased title contains the lower-cased query. |
| SqlLike.SearchFilterIsSubstring | server/app.py:52 | `title ILIKE '%q%'` holds exactly when lower(q) occurs in lower(title), for q without wildcards. |
| SqlLike.LikeContains | server/app.py:52 | The `LIKE` pattern `%q%` matches exactly the strings containing q, when q has no wildcard characters. |
| ComicBookResource.Render | server/app.py:56-66 | The listing's items follow the selected ids one to one: item i is the read shape of id i. |
| ComicBookResource.GetOne | server/app.py:67-79 | An unknown id answers 404 with "Comic book not found". A known id answers 200 with its read shape. The database is unchanged either way. |
| ComicBookResource.Get | server/app.py:47-79 | With no id routed the GET answers 200 with the read shapes of exactly the comics matching the search argument, each once. A known id answers 200 with its read shape, an unknown one 404 with "Comic book not found". It never changes the database. |
| ReadShape.SerializeShowsStoredRow | server/app.py:71-77 | A comic reads as its own id, title, rating and reviews. The publisher reads as its name, or "Unknown Publisher" when the row is missing. The image reads as `/static/images/` plus the stored name, or null when no non-empty name is stored. |
| ReadShape.SerializeListsEveryLink | server/app.py:78 | A comic lists one genre label per association row pointing at it, each row exactly once. |
| ReadShape.GenreNamesAreLinkLabels | server/app.py:64 | Every listed genre name is the label of one of the comic's association rows, and every such row's label is listed. |
| ReadShape.ServedImageRoundTrip | server/app.py:63 | The served image path gives back the stored file name. The image is null exactly when no name or an empty name is stored. |
| ReadShape.LinksOfEnumerates | server/app.py:64 | The association rows used for a comic's genres are all of that comic's rows, each exactly once. |
| ComicBookResource.FirstGenreNamed | server/app.py:111 | The genre found for a name is in the scan and has exactly that name. When none is found, no scanned genre has that name. |
| ComicBookResource.ResolveGenre | server/app.py:111-112 | A genre is found for a name exactly when a stored genre has that exact name, and the one found has that name. |
| ComicBookResource.NewLinks | server/app.py:110-119 | The create adds one association row per submitted name that names a genre. Each row points at the new comic and the found genre, with the comic's rating as user rating. It adds no other rows. |
| ComicBookResource.Post | server/app.py:84-124 | An upload with a non-empty file name whose sanitised name is empty answers 500 and stores nothing. Otherwise a create answers 201 with "Comic book added successfully!". It adds the comic with 0 reviews and the sanitised file name of a non-empty upload (else null). It adds a row for exactly the submitted names that name an existing genre. Every other table and row is unchanged. |
| ComicBookResource.PostRowsShowSubmittedNames | server/app.py:110-119 | After a create, every association row of the new comic shows one of the submitted names. |
| ComicBookResource.PostShowsEverySubmittedGenre | server/app.py:110-119 | After a create, every submitted name that names an existing genre is shown by an association row of the new comic. |
| ComicBookResource.AddedLinks | server/app.py:110-119 | A create keeps the earlier association rows. It adds a row at the i-th fresh id exactly when the i-th submitted name names a genre. Each new row points at the new comic, with the comic's rating as user rating and a genre of that name. |
| ComicBookResource.PostThenGetRoundTrip | server/app.py:84-121 | In a database whose association rows all point at stored comics, fetching a created comic gives back the submitted title and rating, 0 reviews and the served image path. Its genres are exactly the submitted names that name existing genres. A create that failed on its upload leaves the id not found. |
| ComicBookResource.GetPublishers | server/app.py:177-181 | The publisher listing holds every stored publisher as `{id, name}`, each exactly once, and nothing else. |
| ComicBookResource.Put | server/app.py:126-151 | An unknown id answers 404 and changes nothing. Otherwise each field sent replaces the stored value and each field absent keeps it. The image changes only when a non-empty value is sent. Every other row and table is unchanged. |
| ComicBookResource.PutIdempotent | server/app.py:133-140 | Sending the same update twice leaves the database as sending it once. |
| ComicBookResource.PutKeepsGenres | server/app.py:126-151 | An update never changes the genres a comic lists. |
| ComicBookResource.PutReplyAgreesWithGet | server/app.py:144-151 | The update's reply is exactly what a following fetch by id shows, minus the genres. |
| ComicBookResource.PostKeepsLinksPointing | server/app.py:110-119 | A create keeps every association row pointing at a stored comic. |
| ComicBookResource.PutKeepsLinksPointing | server/app.py:126-142 | An update keeps every association row pointing at a stored comic. |
| ComicBookResource.DeleteKeepsLinksPointing | server/app.py:162-167 | A delete keeps every association row pointing at a stored comic, because the deleted comic's rows go with it. |
| Store.FreshIdHasNoLinks | server/app.py:36-40 | When every association row points at a stored comic, no row points at an id that no comic has. |
| ComicBookResource.Delete | server/app.py:156-169 | An unknown id answers 404 and changes nothing. Otherwise it answers 200 with "Comic book deleted successfully!". It removes the comic and exactly the association rows pointing at it, and keeps every other row unchanged. |
| ComicBookResource.ScanAfterDelete | server/app.py:163-167 | After a delete the tables can still be listed completely and without repetition. Publishers and genres keep their order, and the comics and association rows keep the earlier order with some rows left out. |
| ComicBookResource.DeleteThenGetNotFound | server/app.py:156-169 | A deleted comic is then not found. |
| ComicBookResource.DeleteKeepsOtherLinks | server/app.py:163 | A delete keeps every other comic's association rows, in the same order. |
| ComicBookResource.DeleteKeepsOtherViews | server/app.py:156-169 | A delete does not change how any other comic reads. |
| ComicBookList.ApplyFetch | client/src/components/ComicBookList.js:15-27 | Only an ok response whose body is an array replaces the cache, and then with exactly that array. A non-ok response, a non-array body or a network failure leaves the state unchanged. The selection is never touched. |
| ComicBookList.ApplyFetchIdempotent | client/src/components/ComicBookList.js:15-27 | Applying the same fetch outcome twice is applying it once. |
| ComicBookList.ApplyFetchLastWins | client/src/components/ComicBookList.js:20-21 | A fetch that replaces the cache erases every earlier fetch's effect. |
| ComicBookList.ApplyDelete | client/src/components/ComicBookList.js:41-57 | On success the cache keeps exactly the comics with another id, in order and with their multiplicities. The selection is cleared exactly when it is the deleted comic. A failed or rejected request changes nothing. |
| ComicBookList.ApplyDeleteIdempotent | client/src/components/ComicBookList.js:46-51 | A second identical delete outcome changes nothing more. |
| ComicBookList.Select | client/src/components/ComicBookList.js:33-35 | Clicking a card selects that comic and leaves the cache alone. |
| ComicBookList.Close | client/src/components/ComicBookList.js:37-39 | Closing clears the selection and leaves the cache alone. |
| ComicBookList.DeleteOfSelectedClosesIt | client/src/components/ComicBookList.js:47-51 | Deleting the selected comic closes the detail card and removes the comic from the cache. |
| ComicBookList.GenresTextRoundTrip | client/src/components/ComicBookList.js:73 | The displayed genre line names each genre once and in order: for a non-empty list in which no name has a comma, splitting it at ", " gives the list back. |
| ComicBookList.GenresTextOfNone | client/src/components/ComicBookList.js:73 | A comic without genres shows an empty genre line, and splitting that line gives one empty name rather than no names. |
| Text.SplitJoin | client/src/components/ComicBookList.js:89 | Joining a non-empty list of names with ", " and splitting at the commas gives back the names, when none holds a comma. |
| Text.Trim | client/src/components/App.js:19 | `trim()` returns a slice of the term that neither starts nor ends with whitespace, and everything it drops before and after the slice is whitespace. |
| Text.TrimStart | client/src/components/App.js:19 | Leading whitespace goes and nothing else does. The result does not start with whitespace. |
| Text.TrimEnd | client/src/components/App.js:19 | Trailing whitespace goes and nothing else does. The result does not end with whitespace. |
| Text.TrimEmptyIff | client/src/components/App.js:19 | The trimmed term is empty exactly when every character is whitespace. |
| App.SearchNavigatesIff | client/src/components/App.js:18-22 | A search navigates exactly when the typed term holds a non-whitespace character. |
| App.KeyDownSearchesOnlyOnEnter | client/src/components/App.js:24-28 | A key press changes the state only when it is Enter and the term is not blank. Enter on a non-blank term always moves the location to where the browser resolves `/search/` plus the encoded, untrimmed term. |
| App.TypedValueIsSearched | client/src/components/App.js:14-22 | After typing a non-blank value, a search lands on the list view with that value as the route's term exactly when the value does not encode to a dot segment. A blank value changes nothing but the stored term. |
| App.Route | client/src/components/App.js:80-85 | `/` shows the form, `/comicbooks` the unfiltered list and `/about` the about page. A single segment after `/search/` shows the list filtered by the decoded segment. Each holds exactly for those paths. |
| App.ResolveSegments | client/src/components/App.js:20 | The browser's walk over the navigated path's segments leaves no `.` or `..` segment (in either spelling, plain or `%2e`) in the location. |
| App.SearchPathResolution | client/src/components/App.js:20 | The browser keeps `/search/` plus an encoded term as it is, unless the term is a dot segment: `..` resolves to `/` and `.` to `/search/`. |
| App.SearchLandsOnList | client/src/components/App.js:18-22 | The location a search navigates to routes to the list view carrying the term exactly as typed, when the encoded term is no dot segment. An encoded `..` lands on the form at `/`, and an encoded `.` on `/search/`, which no route matches. |
| Sync.QueryStringReachesServer | client/src/components/ComicBookList.js:13 | The server's `search` argument, decoded from the list view's query string, is the route's term. An absent or empty term reaches it as no filter. |
| Sync.DisplayedImageOfStoredName | client/src/components/ComicBookList.js:85-88 | A card's image source is the API origin plus `/static/images/` plus the stored name. Without a non-empty stored name it is the placeholder. |
| Sync.FetchOfListingFillsCache | client/src/components/ComicBookList.js:15-21 | Loading the server's listing fills the cache with exactly its items and keeps the selection. |
| Sync.TypedSearchFiltersListing | client/src/components/App.js:18-22 | A submitted term whose encoding is no dot segment reaches the catalog view's route, its query string and the server's filter unchanged, and the cache ends as the server's listing for that term. A term encoding to a dot segment does not reach the list view. |
| Sync.SelectedIdsAfterDelete | server/app.py:50-54 | After a delete, the listing's ids are the earlier ones without the deleted id, in the same order. |
| Sync.RenderDropping | client/src/components/ComicBookList.js:48 | Dropping a comic from a rendered list is rendering the other ids, when they read the same. |
| Sync.OtherViewsSurviveDelete | server/app.py:156-169 | Every listed comic other than the deleted one survives the delete and reads the same. |
| Sync.ListingAfterDelete | server/app.py:156-169 | After a delete, the new listing is the earlier listing without the deleted comic's entries, in the same order. |
| Sync.DeleteKeepsCacheInSync | client/src/components/ComicBookList.js:41-51 | If the cache equals the server's listing before a delete, it still equals the server's listing after both sides have handled the delete, whether it succeeded or answered 404. |
| FormSubmission.AsWrittenFormDropsGenres | client/src/components/ComicBookForm.js:41 | As written, submitting two checked genres that both exist creates the comic with no genre row at all. |
| FormSubmission.CorrectedFormKeepsGenres | client/src/components/ComicBookForm.js:41 | With one `genres[]` field per checked name, a comic whose create stores it reads back with exactly the checked genres. |

## Left out

- Error paths that raise inside a handler: a rating that does not parse as a float, a PUT without a JSON body, or a failed commit. The handlers answer 500 to all of these. The model has no such inputs.
- Floating point: `rating` and `user_rating` are reals.
- The `ILIKE` pattern is not escaped, so `%` and `_` in a query act as wildcards. `SqlLike.Like` models them, and the substring properties assume queries without them.
- SQLite's `lower()` folds only ASCII letters, and so does the model. Wider case folding is out of scope.
- File handling: `secure_filename` is the parameter `sanitize`. Saving the file to disk is not modelled beyond its failure on an empty sanitised name (`ComicBookResource.ImageSaves`). Other save failures, such as a missing directory, are not modelled.
- ComicBookResource.ScanAfterDelete: assumes the database scans the remaining rows in their earlier relative order after a delete. SQLite scans a table in rowid order, and a delete does not reorder the other rows. The delete properties hold for that order only.
- Id assignment: the new comic's id and the new association rows' ids are parameters, required to be fresh.
- Row order of queries without `ORDER BY`: it is the `Scan` parameter.
- `encodeURIComponent` and the decoding that undoes it: they are the parameters `encode` and `decode`, constrained by `Text.UriCodec`. `decode` stands both for the router's decoding of the path segment and for the server's query-string decoding of `search` in `Sync.SearchArg`. The two agree on `encodeURIComponent`'s output, because it always escapes `+` and so the server never reads a `+` as a space.
- The browser's other path normalisation, such as turning `\` into `/` or cutting the path at `?` or `#`: `Text.UriCodec` requires an encoded term to hold none of these characters, as `encodeURIComponent`'s output does not.
- App.SearchLandsOnList, App.TypedValueIsSearched and Sync.TypedSearchFiltersListing: the search reaches the list view only for terms whose encoding is no dot segment. For `.` and `..`, which `encodeURIComponent` leaves unescaped, the lemmas state where the browser lands instead.
- React Router's case-insensitive matching and trailing-slash tolerance, and any path not in the table, which routes to `NoMatch`.
- Asynchrony: two list fetches resolving out of order, and the delete handler's closure over a stale cache. The model applies outcomes in the order given.
- `Array.isArray` accepts any array. The model assumes an array body holds comics.
- A PUT key that is present with a JSON `null` value: for the non-nullable columns it makes the commit fail (answer 500), which is not modelled; a present key is `Some` with a value. An `image_url` of null is treated as absent, which matches `if image:`.
- The page heading, the empty-list message and the card markup of the catalog view.
- Logging: the `console.error` calls in the catalog view's fetch and delete handlers have no effect on the state and are not modelled.
- The nav bubble animation (`handleBubbleClick` and its timer), styles, CORS and static-file serving.
- The creation form's other behaviour, the seed script, the About page, `config.py`, `models.py` and `index.js`. The form's `genres[]` field is modelled only for the finding.

## Findings

| source | as written | input that shows it | evidently intended | confidence | as-written member | corrected member |
|---|---|---|---|---|---|---|
| client/src/components/ComicBookForm.js:41 | The form appends the whole array of checked genre names as one `genres[]` field. The browser sends it as the names joined by ",". The server then looks for a genre with that joined name. | Checking "Action" and "Horror", both seeded genres, sends "Action,Horror". No genre matches, so the comic gets no genres. | One `genres[]` field per checked name, so that each named genre gets an association row. | not executed | FormSubmission.AsWrittenFormDropsGenres | FormSubmission.CorrectedFormKeepsGenres |
