/** The comic-book REST resource: list and search, fetch by id, create,
    partial update and delete, plus the publisher listing. Each handler takes
    the database and returns the status code, the JSON body and the database
    after the request. */
module ComicBookResource {
  import opened Wrappers
  import opened Seqs
  import opened Text
  import opened SqlLike
  import opened Store
  import opened ReadShape

  const StatusOk: int := 200
  const StatusCreated: int := 201
  const StatusNotFound: int := 404
  const StatusServerError: int := 500

  const NotFoundMessage: string := "Comic book not found"
  const AddedMessage: string := "Comic book added successfully!"
  const DeletedMessage: string := "Comic book deleted successfully!"
  const ServerErrorMessage: string := "Internal Server Error"

  datatype Body =
    | ComicList(items: seq<ComicView>)
    | Comic(view: ComicView)
    | Updated(summary: ComicSummary)
    | PublisherList(publishers: seq<PublisherView>)
    | Message(message: string)
    | Error(error: string)

  datatype Reply = Reply(status: int, body: Body, db: Db)

  // ----- GET /api/comicbooks[?search=q] and GET /api/comicbooks/<id> -----

  /** The filter of the listing: an empty query keeps every title, any other
      query keeps the titles matching `ILIKE '%q%'`. */
  predicate MatchesSearch(title: string, q: string) {
    q == "" || ILikeContains(title, q)
  }

  ghost function Selected(db: Db, q: string): set<Id> {
    set id | id in db.comics && MatchesSearch(db.comics[id].title, q)
  }

  /** `items` are the read shapes of exactly the comics in `wanted`, each once,
      in some order. */
  ghost predicate ListsExactly(db: Db, scan: Scan, items: seq<ComicView>, wanted: set<Id>)
    requires ValidScan(db, scan)
  {
    exists ids ::
      && Enumerates(ids, wanted)
      && |ids| == |items|
      && forall i :: 0 <= i < |ids| ==> ids[i] in db.comics && items[i] == Serialize(db, scan, ids[i])
  }

  /** Holds of the comics whose title matches a non-empty query. */
  function SearchHit(db: Db, q: string): Id -> bool {
    id => id in db.comics && ILikeContains(db.comics[id].title, q)
  }

  /** The keys of the selected comics, in scan order. */
  function SelectedIds(db: Db, scan: Scan, q: string): (ids: seq<Id>)
    requires ValidScan(db, scan)
    ensures Enumerates(ids, Selected(db, q))
  {
    if q == "" then
      assert forall id :: id in db.comics ==> id in Selected(db, q);
      scan.comics
    else
      FilterDistinct(SearchHit(db, q), scan.comics);
      Filter(SearchHit(db, q), scan.comics)
  }

  /** The read shapes of the comics `ids`, in that order. */
  function Render(db: Db, scan: Scan, ids: seq<Id>): (items: seq<ComicView>)
    requires ValidScan(db, scan)
    requires forall i :: 0 <= i < |ids| ==> ids[i] in db.comics
    ensures |items| == |ids|
    ensures forall i :: 0 <= i < |ids| ==> items[i] == Serialize(db, scan, ids[i])
  {
    if |ids| == 0 then [] else [Serialize(db, scan, ids[0])] + Render(db, scan, ids[1..])
  }

  function List(db: Db, scan: Scan, search: Option<string>): (r: Reply)
    requires ValidScan(db, scan)
    ensures r.status == StatusOk && r.db == db && r.body.ComicList?
    ensures ListsExactly(db, scan, r.body.items, Selected(db, search.GetOr("")))
  {
    var ids := SelectedIds(db, scan, search.GetOr(""));
    assert forall i :: 0 <= i < |ids| ==> ids[i] in ids;
    var items := Render(db, scan, ids);
    Reply(StatusOk, ComicList(items), db)
  }

  function GetOne(db: Db, scan: Scan, id: Id): (r: Reply)
    requires ValidScan(db, scan)
    ensures r.db == db
    ensures id !in db.comics ==> r.status == StatusNotFound && r.body == Error(NotFoundMessage)
    ensures id in db.comics ==> r.status == StatusOk && r.body == Comic(Serialize(db, scan, id))
  {
    if id !in db.comics then Reply(StatusNotFound, Error(NotFoundMessage), db)
    else Reply(StatusOk, Comic(Serialize(db, scan, id)), db)
  }

  /** The GET handler: the collection when no id is routed, else one comic. */
  function Get(db: Db, scan: Scan, comicBookId: Option<Id>, search: Option<string>): (r: Reply)
    requires ValidScan(db, scan)
    ensures r.db == db
    ensures comicBookId.Some? && comicBookId.value !in db.comics ==>
      r.status == StatusNotFound && r.body == Error(NotFoundMessage)
    ensures comicBookId.Some? && comicBookId.value in db.comics ==>
      r.status == StatusOk && r.body == Comic(Serialize(db, scan, comicBookId.value))
    ensures comicBookId.None? ==>
      && r.status == StatusOk && r.body.ComicList?
      && ListsExactly(db, scan, r.body.items, Selected(db, search.GetOr("")))
  {
    if comicBookId.None? then List(db, scan, search) else GetOne(db, scan, comicBookId.value)
  }

  /** An absent or empty `search` argument lists every stored comic. */
  lemma ListWithoutSearchIsEverything(db: Db, scan: Scan, search: Option<string>)
    requires ValidScan(db, scan)
    requires search.None? || search.value == ""
    ensures ListsExactly(db, scan, List(db, scan, search).body.items, db.comics.Keys)
  {
    assert forall id :: id in db.comics ==> id in Selected(db, "");
    assert Selected(db, "") == db.comics.Keys;
  }

  /** A non-empty query without `%` or `_` lists exactly the comics whose
      lower-cased title contains the lower-cased query. */
  lemma ListSearchIsCaseInsensitiveSubstring(db: Db, scan: Scan, q: string)
    requires ValidScan(db, scan)
    requires q != "" && NoWildcards(q)
    ensures ListsExactly(db, scan, List(db, scan, Some(q)).body.items,
                         set id | id in db.comics && Contains(Lower(db.comics[id].title), Lower(q)))
  {
    var want := set id | id in db.comics && Contains(Lower(db.comics[id].title), Lower(q));
    forall id | id in db.comics
      ensures id in Selected(db, q) <==> id in want
    {
      SearchFilterIsSubstring(db.comics[id].title, q);
    }
    assert Selected(db, q) == want;
  }

  // ----- POST /api/comicbooks -----

  /** An uploaded file; only its client-side file name matters here. */
  datatype Upload = Upload(filename: string)

  /** The multipart form of a create request: `genres` is the list of
      `genres[]` values, `image` the optional file part. */
  datatype CreateForm = CreateForm(
    title: string,
    publisherId: Id,
    rating: real,
    genres: seq<string>,
    image: Option<Upload>)

  /** The first genre, in scan order, whose name equals `name` exactly. */
  function FirstGenreNamed(db: Db, order: seq<Id>, name: string): (r: Option<Id>)
    ensures r.Some? ==> r.value in order && r.value in db.genres && db.genres[r.value].name == name
    ensures r.None? ==> forall g :: g in order && g in db.genres ==> db.genres[g].name != name
  {
    if |order| == 0 then None
    else if order[0] in db.genres && db.genres[order[0]].name == name then Some(order[0])
    else FirstGenreNamed(db, order[1..], name)
  }

  /** `Genre.query.filter_by(name=name).first()`. */
  function ResolveGenre(db: Db, scan: Scan, name: string): (r: Option<Id>)
    requires ValidScan(db, scan)
    ensures r.Some? ==> r.value in db.genres && db.genres[r.value].name == name
    ensures r.None? <==> forall g :: g in db.genres ==> db.genres[g].name != name
  {
    var found := FirstGenreNamed(db, scan.genres, name);
    assert found.None? ==> forall g :: g in db.genres ==> db.genres[g].name != name by {
      if found.None? {
        forall g | g in db.genres
          ensures db.genres[g].name != name
        {
          assert g in scan.genres;
        }
      }
    }
    assert found.Some? ==> !forall g :: g in db.genres ==> db.genres[g].name != name by {
      if found.Some? {
        var g := found.value;
        assert g in db.genres && db.genres[g].name == name;
      }
    }
    found
  }

  /** The file name stored for an upload: none without a file or with an empty
      file name, otherwise the sanitised name. */
  function StoredImage(image: Option<Upload>, sanitize: string -> string): Option<string> {
    if image.Some? && image.value.filename != "" then Some(sanitize(image.value.filename)) else None
  }

  /** The association rows a create adds: row `ids[i]` for the i-th submitted
      genre name when a genre of that name exists, nothing otherwise. */
  function NewLinks(db: Db, scan: Scan, names: seq<string>, ids: seq<Id>, comicId: Id, rating: real)
    : (m: map<Id, ComicBookGenre>)
    requires ValidScan(db, scan)
    requires |ids| == |names| && Distinct(ids)
    ensures forall l :: l in m ==>
      exists i :: 0 <= i < |ids| && ids[i] == l && ResolveGenre(db, scan, names[i]).Some?
        && m[l] == ComicBookGenre(comicId, ResolveGenre(db, scan, names[i]).value, rating)
    ensures forall i :: 0 <= i < |ids| && ResolveGenre(db, scan, names[i]).Some? ==>
      ids[i] in m && m[ids[i]] == ComicBookGenre(comicId, ResolveGenre(db, scan, names[i]).value, rating)
  {
    if |names| == 0 then map[]
    else
      var rest := NewLinks(db, scan, names[1..], ids[1..], comicId, rating);
      assert ids[0] !in ids[1..];
      match ResolveGenre(db, scan, names[0])
      case None => rest
      case Some(g) => rest[ids[0] := ComicBookGenre(comicId, g, rating)]
  }

  /** The association table after a create: the earlier rows unchanged, and a
      new row at `ids[i]` exactly for each name that names a genre. */
  lemma AddedLinks(db: Db, scan: Scan, names: seq<string>, ids: seq<Id>, comicId: Id, rating: real)
    requires ValidScan(db, scan)
    requires |ids| == |names| && Distinct(ids)
    requires forall i :: 0 <= i < |ids| ==> ids[i] !in db.links
    ensures var all := db.links + NewLinks(db, scan, names, ids, comicId, rating);
      forall l :: l in db.links ==> l in all && all[l] == db.links[l]
    ensures var all := db.links + NewLinks(db, scan, names, ids, comicId, rating);
      forall l :: l in all && l !in db.links ==>
        exists i :: 0 <= i < |ids| && ids[i] == l
          && all[l].comicBookId == comicId && all[l].userRating == rating
          && all[l].genreId in db.genres && db.genres[all[l].genreId].name == names[i]
    ensures var all := db.links + NewLinks(db, scan, names, ids, comicId, rating);
      forall i :: 0 <= i < |ids| ==>
        (ids[i] in all <==> exists g :: g in db.genres && db.genres[g].name == names[i])
  {
    var added := NewLinks(db, scan, names, ids, comicId, rating);
    var all := db.links + added;
    forall l | l in all && l !in db.links
      ensures exists i ::
        && 0 <= i < |ids| && ids[i] == l
        && all[l].comicBookId == comicId && all[l].userRating == rating
        && all[l].genreId in db.genres && db.genres[all[l].genreId].name == names[i]
    {
      var i :| 0 <= i < |ids| && ids[i] == l && ResolveGenre(db, scan, names[i]).Some?
        && added[l] == ComicBookGenre(comicId, ResolveGenre(db, scan, names[i]).value, rating);
    }
    forall i | 0 <= i < |ids|
      ensures ids[i] in all <==> exists g :: g in db.genres && db.genres[g].name == names[i]
    {
      if ids[i] in all {
        var j :| 0 <= j < |ids| && ids[j] == ids[i] && ResolveGenre(db, scan, names[j]).Some?;
        assert j == i;
      }
    }
  }

  /** Whether the upload, if there is one, can be written: a file with a
      non-empty name whose sanitised name is empty makes the save target the
      images directory itself, which raises before anything is stored. */
  predicate ImageSaves(image: Option<Upload>, sanitize: string -> string) {
    image.None? || image.value.filename == "" || sanitize(image.value.filename) != ""
  }

  /** The POST handler. The database picks `newId` for the comic and `linkIds[i]`
      for the row of the i-th genre name; `sanitize` is the file-name
      sanitiser. An upload that cannot be written answers 500 and stores
      nothing. */
  function Post(db: Db, scan: Scan, form: CreateForm, sanitize: string -> string, newId: Id, linkIds: seq<Id>)
    : (r: Reply)
    requires ValidScan(db, scan)
    requires newId !in db.comics
    requires |linkIds| == |form.genres| && Distinct(linkIds)
    requires forall i :: 0 <= i < |linkIds| ==> linkIds[i] !in db.links
    ensures !ImageSaves(form.image, sanitize) ==> r == Reply(StatusServerError, Error(ServerErrorMessage), db)
    ensures ImageSaves(form.image, sanitize) ==>
      && r.status == StatusCreated && r.body == Message(AddedMessage)
      && r.db.publishers == db.publishers && r.db.genres == db.genres
      && r.db.comics.Keys == db.comics.Keys + {newId}
      && (forall c :: c in db.comics ==> r.db.comics[c] == db.comics[c])
      && r.db.comics[newId] ==
           ComicBook(form.title, form.publisherId, form.rating, 0, StoredImage(form.image, sanitize))
    ensures ImageSaves(form.image, sanitize) ==>
      forall l :: l in db.links ==> l in r.db.links && r.db.links[l] == db.links[l]
    ensures ImageSaves(form.image, sanitize) ==>
      forall l :: l in r.db.links && l !in db.links ==>
        exists i :: 0 <= i < |linkIds| && linkIds[i] == l
          && r.db.links[l].comicBookId == newId
          && r.db.links[l].userRating == form.rating
          && r.db.links[l].genreId in db.genres
          && db.genres[r.db.links[l].genreId].name == form.genres[i]
    ensures ImageSaves(form.image, sanitize) ==>
      forall i :: 0 <= i < |linkIds| ==>
        (linkIds[i] in r.db.links <==> exists g :: g in db.genres && db.genres[g].name == form.genres[i])
  {
    if !ImageSaves(form.image, sanitize) then Reply(StatusServerError, Error(ServerErrorMessage), db)
    else
      var comic := ComicBook(form.title, form.publisherId, form.rating, 0, StoredImage(form.image, sanitize));
      var added := NewLinks(db, scan, form.genres, linkIds, newId, form.rating);
      AddedLinks(db, scan, form.genres, linkIds, newId, form.rating);
      Reply(StatusCreated, Message(AddedMessage), db.(comics := db.comics[newId := comic], links := db.links + added))
  }

  /** A create keeps every association row pointing at a stored comic. */
  lemma PostKeepsLinksPointing(db: Db, scan: Scan, form: CreateForm, sanitize: string -> string,
                               newId: Id, linkIds: seq<Id>)
    requires ValidScan(db, scan) && LinksPointAtComics(db)
    requires newId !in db.comics
    requires |linkIds| == |form.genres| && Distinct(linkIds)
    requires forall i :: 0 <= i < |linkIds| ==> linkIds[i] !in db.links
    ensures LinksPointAtComics(Post(db, scan, form, sanitize, newId, linkIds).db)
  {
  }

  /** After a create whose new id had no association rows, every row of the
      new comic shows one of the submitted names. */
  lemma PostRowsShowSubmittedNames(db: Db, scan: Scan, form: CreateForm, sanitize: string -> string,
                                   newId: Id, linkIds: seq<Id>)
    requires ValidScan(db, scan)
    requires newId !in db.comics && NoLinkTo(db, newId)
    requires |linkIds| == |form.genres| && Distinct(linkIds)
    requires forall i :: 0 <= i < |linkIds| ==> linkIds[i] !in db.links
    ensures var db' := Post(db, scan, form, sanitize, newId, linkIds).db;
      forall l :: l in db'.links && db'.links[l].comicBookId == newId ==>
        GenreLabel(db', db'.links[l]) in form.genres
  {
    var db' := Post(db, scan, form, sanitize, newId, linkIds).db;
    forall l | l in db'.links && db'.links[l].comicBookId == newId
      ensures GenreLabel(db', db'.links[l]) in form.genres
    {
      assert l !in db.links;
      var i :| 0 <= i < |linkIds| && linkIds[i] == l
        && db'.links[l].genreId in db.genres
        && db.genres[db'.links[l].genreId].name == form.genres[i];
    }
  }

  /** After a create that stores the comic, every submitted name that names
      an existing genre is shown by a row of the new comic. */
  lemma PostShowsEverySubmittedGenre(db: Db, scan: Scan, form: CreateForm, sanitize: string -> string,
                                     newId: Id, linkIds: seq<Id>)
    requires ValidScan(db, scan)
    requires newId !in db.comics
    requires |linkIds| == |form.genres| && Distinct(linkIds)
    requires forall i :: 0 <= i < |linkIds| ==> linkIds[i] !in db.links
    ensures var db' := Post(db, scan, form, sanitize, newId, linkIds).db;
      ImageSaves(form.image, sanitize) ==>
      forall j :: 0 <= j < |form.genres| && (exists g :: g in db.genres && db.genres[g].name == form.genres[j]) ==>
        exists l :: l in db'.links && db'.links[l].comicBookId == newId
          && GenreLabel(db', db'.links[l]) == form.genres[j]
  {
    var db' := Post(db, scan, form, sanitize, newId, linkIds).db;
    forall j | ImageSaves(form.image, sanitize) && 0 <= j < |form.genres| && (exists g :: g in db.genres && db.genres[g].name == form.genres[j])
      ensures exists l :: l in db'.links && db'.links[l].comicBookId == newId
                           && GenreLabel(db', db'.links[l]) == form.genres[j]
    {
      var l := linkIds[j];
      assert l in db'.links && l !in db.links;
      var i :| 0 <= i < |linkIds| && linkIds[i] == l
        && db'.links[l].comicBookId == newId
        && db'.links[l].genreId in db.genres
        && db.genres[db'.links[l].genreId].name == form.genres[i];
      assert i == j;
    }
  }

  /** Creating a comic and then fetching it shows what was submitted: the
      title and rating, no reviews, the served image path, and as genres exactly
      the submitted names that name an existing genre. A create that fails on
      its upload leaves the id unknown. The database is one where every
      association row points at a stored comic, which every handler keeps. */
  lemma PostThenGetRoundTrip(db: Db, scan: Scan, form: CreateForm, sanitize: string -> string,
                             newId: Id, linkIds: seq<Id>, scan': Scan)
    requires ValidScan(db, scan) && LinksPointAtComics(db)
    requires newId !in db.comics
    requires |linkIds| == |form.genres| && Distinct(linkIds)
    requires forall i :: 0 <= i < |linkIds| ==> linkIds[i] !in db.links
    requires ValidScan(Post(db, scan, form, sanitize, newId, linkIds).db, scan')
    ensures !ImageSaves(form.image, sanitize) ==>
      GetOne(Post(db, scan, form, sanitize, newId, linkIds).db, scan', newId).status == StatusNotFound
    ensures var r := GetOne(Post(db, scan, form, sanitize, newId, linkIds).db, scan', newId);
      ImageSaves(form.image, sanitize) ==>
      && r.status == StatusOk
      && r.body.view.title == form.title
      && r.body.view.rating == form.rating
      && r.body.view.reviews == 0
      && r.body.view.imageUrl == ServedImage(StoredImage(form.image, sanitize))
      && (forall k :: 0 <= k < |r.body.view.genres| ==> r.body.view.genres[k] in form.genres)
      && (forall j :: 0 <= j < |form.genres| && (exists g :: g in db.genres && db.genres[g].name == form.genres[j])
            ==> form.genres[j] in r.body.view.genres)
  {
    var db' := Post(db, scan, form, sanitize, newId, linkIds).db;
    FreshIdHasNoLinks(db, newId);
    PostRowsShowSubmittedNames(db, scan, form, sanitize, newId, linkIds);
    PostShowsEverySubmittedGenre(db, scan, form, sanitize, newId, linkIds);
    GenreNamesAreLinkLabels(db', scan', newId);
  }

  // ----- GET /api/publishers -----

  /** Every stored publisher as `{id, name}`, each exactly once. */
  function GetPublishers(db: Db, scan: Scan): (r: Reply)
    requires ValidScan(db, scan)
    ensures r.status == StatusOk && r.db == db && r.body.PublisherList?
    ensures forall i :: 0 <= i < |r.body.publishers| ==>
      r.body.publishers[i].id in db.publishers
      && r.body.publishers[i].name == db.publishers[r.body.publishers[i].id].name
    ensures forall p :: p in db.publishers ==>
      exists i :: 0 <= i < |r.body.publishers| && r.body.publishers[i].id == p
    ensures forall i, j :: 0 <= i < j < |r.body.publishers| ==>
      r.body.publishers[i].id != r.body.publishers[j].id
  {
    var order := scan.publishers;
    var views := seq(|order|, i requires 0 <= i < |order| => PublisherView(order[i], db.publishers[order[i]].name));
    assert forall p :: p in db.publishers ==> exists i :: 0 <= i < |views| && views[i].id == p by {
      forall p | p in db.publishers
        ensures exists i :: 0 <= i < |views| && views[i].id == p
      {
        var i :| 0 <= i < |order| && order[i] == p;
        assert views[i].id == p;
      }
    }
    Reply(StatusOk, PublisherList(views), db)
  }

  // ----- PUT /api/comicbooks/<id> -----

  /** The JSON body of an update: `Some` for each key present. `imageUrl` is
      `None` when the key is absent or null. */
  datatype UpdateFields = UpdateFields(
    title: Option<string>,
    publisherId: Option<Id>,
    rating: Option<real>,
    reviews: Option<int>,
    imageUrl: Option<string>)

  function Put(db: Db, id: Id, data: UpdateFields): (r: Reply)
    ensures id !in db.comics ==> r == Reply(StatusNotFound, Error(NotFoundMessage), db)
    ensures id in db.comics ==>
      && r.status == StatusOk
      && r.db.publishers == db.publishers && r.db.genres == db.genres && r.db.links == db.links
      && r.db.comics.Keys == db.comics.Keys
      && (forall c :: c in db.comics && c != id ==> r.db.comics[c] == db.comics[c])
      && r.body == Updated(Summarize(r.db, id))
    ensures id in db.comics ==>
      var before, after := db.comics[id], r.db.comics[id];
      && (if data.title.Some? then after.title == data.title.value else after.title == before.title)
      && (if data.publisherId.Some? then after.publisherId == data.publisherId.value
          else after.publisherId == before.publisherId)
      && (if data.rating.Some? then after.rating == data.rating.value else after.rating == before.rating)
      && (if data.reviews.Some? then after.reviews == data.reviews.value else after.reviews == before.reviews)
      && (if IsTruthy(data.imageUrl) then after.imageUrl == data.imageUrl else after.imageUrl == before.imageUrl)
  {
    if id !in db.comics then Reply(StatusNotFound, Error(NotFoundMessage), db)
    else
      var c := db.comics[id];
      var updated := ComicBook(
        data.title.GetOr(c.title),
        data.publisherId.GetOr(c.publisherId),
        data.rating.GetOr(c.rating),
        data.reviews.GetOr(c.reviews),
        if IsTruthy(data.imageUrl) then data.imageUrl else c.imageUrl);
      var db' := db.(comics := db.comics[id := updated]);
      Reply(StatusOk, Updated(Summarize(db', id)), db')
  }

  /** Sending the same update twice leaves the store as sending it once. */
  lemma PutIdempotent(db: Db, id: Id, data: UpdateFields)
    ensures Put(Put(db, id, data).db, id, data).db == Put(db, id, data).db
  {
  }

  /** An update never changes the genres a comic lists. */
  lemma PutKeepsGenres(db: Db, scan: Scan, id: Id, data: UpdateFields)
    requires ValidScan(db, scan) && id in db.comics
    ensures ValidScan(Put(db, id, data).db, scan)
    ensures Serialize(Put(db, id, data).db, scan, id).genres == Serialize(db, scan, id).genres
  {
  }

  /** The body of an update is what a fetch by id would then show, without
      the genres. */
  lemma PutReplyAgreesWithGet(db: Db, scan: Scan, id: Id, data: UpdateFields)
    requires ValidScan(db, scan) && id in db.comics
    ensures var r := Put(db, id, data);
      var v := GetOne(r.db, scan, id).body.view;
      && ValidScan(r.db, scan)
      && r.body.summary == ComicSummary(v.id, v.title, v.publisher, v.rating, v.reviews, v.imageUrl)
  {
  }

  // ----- DELETE /api/comicbooks/<id> -----

  function Delete(db: Db, id: Id): (r: Reply)
    ensures id !in db.comics ==> r == Reply(StatusNotFound, Error(NotFoundMessage), db)
    ensures id in db.comics ==>
      && r.status == StatusOk && r.body == Message(DeletedMessage)
      && r.db.publishers == db.publishers && r.db.genres == db.genres
      && r.db.comics.Keys == db.comics.Keys - {id}
      && (forall c :: c in r.db.comics ==> r.db.comics[c] == db.comics[c])
      && NoLinkTo(r.db, id)
      && (forall l :: l in r.db.links ==> l in db.links && r.db.links[l] == db.links[l])
      && (forall l :: l in db.links && db.links[l].comicBookId != id ==> l in r.db.links)
  {
    if id !in db.comics then Reply(StatusNotFound, Error(NotFoundMessage), db)
    else
      var links := map l | l in db.links && db.links[l].comicBookId != id :: db.links[l];
      Reply(StatusOk, Message(DeletedMessage), db.(comics := db.comics - {id}, links := links))
  }

  /** Holds of every key but `id`. */
  function IsOtherThan(id: Id): Id -> bool {
    k => k != id
  }

  /** Holds of the keys present in `links`. */
  function IsStoredLink(links: map<Id, ComicBookGenre>): Id -> bool {
    l => l in links
  }

  /** The database's scan after a delete: the same order with the removed rows
      left out. */
  function ScanAfterDelete(db: Db, scan: Scan, id: Id): (s: Scan)
    requires ValidScan(db, scan)
    ensures ValidScan(Delete(db, id).db, s)
    ensures s.publishers == scan.publishers && s.genres == scan.genres
    ensures IsSubsequence(s.comics, scan.comics) && IsSubsequence(s.links, scan.links)
  {
    if id !in db.comics then
      SubsequenceOfSelf(scan.comics);
      SubsequenceOfSelf(scan.links);
      scan
    else
    var links' := Delete(db, id).db.links;
    FilterDistinct(IsOtherThan(id), scan.comics);
    FilterDistinct(IsStoredLink(links'), scan.links);
    FilterIsSubsequence(IsOtherThan(id), scan.comics);
    FilterIsSubsequence(IsStoredLink(links'), scan.links);
    scan.(comics := Filter(IsOtherThan(id), scan.comics), links := Filter(IsStoredLink(links'), scan.links))
  }

  /** An update keeps every association row pointing at a stored comic. */
  lemma PutKeepsLinksPointing(db: Db, id: Id, data: UpdateFields)
    requires LinksPointAtComics(db)
    ensures LinksPointAtComics(Put(db, id, data).db)
  {
  }

  /** A delete keeps every association row pointing at a stored comic: the
      rows of the deleted comic go with it. */
  lemma DeleteKeepsLinksPointing(db: Db, id: Id)
    requires LinksPointAtComics(db)
    ensures LinksPointAtComics(Delete(db, id).db)
  {
  }

  /** Once deleted, a comic is not found. */
  lemma DeleteThenGetNotFound(db: Db, scan: Scan, id: Id)
    requires ValidScan(db, scan) && id in db.comics
    ensures GetOne(Delete(db, id).db, ScanAfterDelete(db, scan, id), id).status == StatusNotFound
  {
  }

  /** After a delete the other comics keep their association rows, in the same
      order. */
  lemma DeleteKeepsOtherLinks(db: Db, scan: Scan, id: Id, other: Id)
    requires ValidScan(db, scan) && id in db.comics && other != id
    ensures LinksOf(Delete(db, id).db, ScanAfterDelete(db, scan, id), other) == LinksOf(db, scan, other)
  {
    var db' := Delete(db, id).db;
    FilterFilter(IsStoredLink(db'.links), IsLinkOf(db', other), IsLinkOf(db, other), scan.links);
  }

  /** Deleting one comic does not change how any other comic reads. */
  lemma DeleteKeepsOtherViews(db: Db, scan: Scan, id: Id, other: Id)
    requires ValidScan(db, scan) && id in db.comics
    requires other in db.comics && other != id
    ensures Serialize(Delete(db, id).db, ScanAfterDelete(db, scan, id), other) == Serialize(db, scan, other)
  {
    var db' := Delete(db, id).db;
    var scan' := ScanAfterDelete(db, scan, id);
    DeleteKeepsOtherLinks(db, scan, id, other);
    forall l | l in LinksOf(db, scan, other)
      ensures db'.links[l] == db.links[l]
    {
      assert l in db'.links;
    }
    GenreNamesFramed(db, scan, db', scan', other);
  }
}
