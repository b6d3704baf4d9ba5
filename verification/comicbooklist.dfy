/** The catalog view's state: the cached list of comics and the selected comic,
    with the transitions the view's handlers apply, and the strings it renders. */
module ComicBookList {
  import opened Wrappers
  import opened Seqs
  import opened Text
  import opened Store
  import opened ReadShape

  const ApiOrigin: string := "http://localhost:5555"
  const DefaultImage: string := "default-image-url"
  const SearchQueryPrefix: string := "?search="

  datatype CatalogState = CatalogState(cache: seq<ComicView>, selection: Option<ComicView>)

  /** A decoded response body: an array (of comics), or any other JSON value. */
  datatype Json = JsonArray(items: seq<ComicView>) | JsonOther

  /** How a fetch of the list ended: a response with its `ok` flag and its
      body (`None` when `response.json()` rejected), or a rejected `fetch`. */
  datatype FetchOutcome = Responded(ok: bool, body: Option<Json>) | NetworkFailure

  /** How a delete request ended: a response with its `ok` flag, or a
      rejected `fetch`. */
  datatype DeleteOutcome = DeleteResponded(ok: bool) | DeleteRejected {
    predicate Succeeded() {
      DeleteResponded? && ok
    }
  }

  /** The query string of the list request: the encoded term behind
      `?search=` when the route carries a non-empty term, nothing otherwise. */
  function QueryString(searchTerm: Option<string>, encode: string -> string): string {
    if IsTruthy(searchTerm) then SearchQueryPrefix + encode(searchTerm.value) else ""
  }

  /** The effect of a fetch on the state: only an ok response whose body is an
      array replaces the cache, and then with exactly that array. */
  function ApplyFetch(s: CatalogState, outcome: FetchOutcome): (r: CatalogState)
    ensures r.selection == s.selection
    ensures outcome.Responded? && outcome.ok && outcome.body.Some? && outcome.body.value.JsonArray? ==>
      r.cache == outcome.body.value.items
    ensures !(outcome.Responded? && outcome.ok && outcome.body.Some? && outcome.body.value.JsonArray?) ==>
      r == s
  {
    match outcome
    case Responded(ok, body) =>
      if ok && body.Some? && body.value.JsonArray? then s.(cache := body.value.items) else s
    case NetworkFailure => s
  }

  /** Applying the same fetch outcome twice is applying it once. */
  lemma ApplyFetchIdempotent(s: CatalogState, outcome: FetchOutcome)
    ensures ApplyFetch(ApplyFetch(s, outcome), outcome) == ApplyFetch(s, outcome)
  {
  }

  /** A fetch that replaces the cache erases every earlier fetch's effect. */
  lemma ApplyFetchLastWins(s: CatalogState, first: FetchOutcome, second: FetchOutcome)
    requires second.Responded? && second.ok && second.body.Some? && second.body.value.JsonArray?
    ensures ApplyFetch(ApplyFetch(s, first), second) == ApplyFetch(s, second)
  {
  }

  /** Holds of the comics whose id differs from `id`. */
  function HasOtherId(id: Id): ComicView -> bool {
    (c: ComicView) => c.id != id
  }

  /** The effect of the delete handler's outcome. On success every cached comic
      with that id goes, the rest stay in order, and the selection is cleared
      exactly when it is the deleted comic; on failure nothing changes. */
  function ApplyDelete(s: CatalogState, id: Id, outcome: DeleteOutcome): (r: CatalogState)
    ensures !outcome.Succeeded() ==> r == s
    ensures outcome.Succeeded() ==>
      && (forall c :: c in r.cache <==> c in s.cache && c.id != id)
      && (forall c :: multiset(r.cache)[c] == if c.id != id then multiset(s.cache)[c] else 0)
      && IsSubsequence(r.cache, s.cache)
    ensures outcome.Succeeded() && s.selection.Some? && s.selection.value.id == id ==> r.selection == None
    ensures outcome.Succeeded() && !(s.selection.Some? && s.selection.value.id == id) ==>
      r.selection == s.selection
  {
    if !outcome.Succeeded() then s
    else
      FilterMultiset(HasOtherId(id), s.cache);
      FilterIsSubsequence(HasOtherId(id), s.cache);
      var cache := Filter(HasOtherId(id), s.cache);
      if s.selection.Some? && s.selection.value.id == id then CatalogState(cache, None)
      else CatalogState(cache, s.selection)
  }

  /** Deleting the selected comic closes it and drops it from the cache. */
  lemma DeleteOfSelectedClosesIt(s: CatalogState, comic: ComicView)
    ensures var r := ApplyDelete(Select(s, comic), comic.id, DeleteResponded(true));
      r.selection == None && comic !in r.cache
  {
  }

  /** A second successful delete of the same id changes nothing more. */
  lemma ApplyDeleteIdempotent(s: CatalogState, id: Id, outcome: DeleteOutcome)
    ensures ApplyDelete(ApplyDelete(s, id, outcome), id, outcome) == ApplyDelete(s, id, outcome)
  {
    if outcome.Succeeded() {
      FilterKeepsAll(HasOtherId(id), ApplyDelete(s, id, outcome).cache);
    }
  }

  /** Clicking a card selects that comic; the cache is untouched. */
  function Select(s: CatalogState, comic: ComicView): (r: CatalogState)
    ensures r.cache == s.cache && r.selection == Some(comic)
  {
    s.(selection := Some(comic))
  }

  /** The close button clears the selection; the cache is untouched. */
  function Close(s: CatalogState): (r: CatalogState)
    ensures r.cache == s.cache && r.selection == None
  {
    s.(selection := None)
  }

  /** The `src` of a card's image: the served path on the API origin, or the
      placeholder when the comic has no image path. */
  function ImageSrc(imageUrl: Option<string>): string {
    if IsTruthy(imageUrl) then ApiOrigin + imageUrl.value else DefaultImage
  }

  /** The genre line of a card. */
  function GenresText(genres: seq<string>): string {
    Join(genres, ", ")
  }

  /** The genre line names each genre once, in order: for names without
      commas it splits back into the list. */
  lemma GenresTextRoundTrip(genres: seq<string>)
    requires |genres| > 0
    requires forall k :: 0 <= k < |genres| ==> ',' !in genres[k]
    ensures SplitList(GenresText(genres)) == genres
  {
    SplitJoin(genres);
  }

  /** A comic without genres shows an empty genre line, which splits into one
      empty name, not into no names. */
  lemma GenresTextOfNone()
    ensures GenresText([]) == ""
    ensures SplitList(GenresText([])) == [""]
  {
  }
}
