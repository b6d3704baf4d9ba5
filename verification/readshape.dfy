/** The JSON shapes the server sends back, and the mapping from stored rows to
    them: the image file name gets the static-images prefix, a missing
    publisher or genre row reads as "Unknown …", and a comic lists one genre
    name per association row that points at it. */
module ReadShape {
  import opened Wrappers
  import opened Seqs
  import opened Text
  import opened Store

  const ImagePrefix: string := "/static/images/"
  const UnknownPublisher: string := "Unknown Publisher"
  const UnknownGenre: string := "Unknown Genre"

  /** A comic as listed and as fetched by id. */
  datatype ComicView = ComicView(
    id: Id,
    title: string,
    publisher: string,
    rating: real,
    reviews: int,
    imageUrl: Option<string>,
    genres: seq<string>)

  /** A comic as returned by an update: the same fields without `genres`. */
  datatype ComicSummary = ComicSummary(
    id: Id,
    title: string,
    publisher: string,
    rating: real,
    reviews: int,
    imageUrl: Option<string>)

  datatype PublisherView = PublisherView(id: Id, name: string)

  /** The served image path: prefixed when a non-empty name is stored, null
      otherwise. */
  function ServedImage(stored: Option<string>): Option<string> {
    if IsTruthy(stored) then Some(ImagePrefix + stored.value) else None
  }

  /** The path a served image was stored under, recovered from the served path. */
  function StoredName(served: string): (r: Option<string>)
  {
    if |served| > |ImagePrefix| && served[..|ImagePrefix|] == ImagePrefix
    then Some(served[|ImagePrefix|..])
    else None
  }

  /** The served path determines the stored name: nothing is lost by the
      prefixing, and an empty or absent name is served as null. */
  lemma ServedImageRoundTrip(stored: Option<string>)
    ensures ServedImage(stored).Some? ==> StoredName(ServedImage(stored).value) == stored
    ensures ServedImage(stored).None? <==> stored.None? || stored.value == ""
  {
    if IsTruthy(stored) {
      var served := ImagePrefix + stored.value;
      assert served[..|ImagePrefix|] == ImagePrefix;
      assert served[|ImagePrefix|..] == stored.value;
    }
  }

  /** The publisher's name, or the fallback when the referenced row is absent. */
  function PublisherName(db: Db, publisherId: Id): string {
    if publisherId in db.publishers then db.publishers[publisherId].name else UnknownPublisher
  }

  /** The genre name an association row displays. */
  function GenreLabel(db: Db, link: ComicBookGenre): string {
    if link.genreId in db.genres then db.genres[link.genreId].name else UnknownGenre
  }

  /** Holds of the keys of the association rows that point at comic `id`. */
  function IsLinkOf(db: Db, id: Id): Id -> bool {
    l => l in db.links && db.links[l].comicBookId == id
  }

  /** The association rows of comic `id`, in the order the database scans them. */
  function LinksOf(db: Db, scan: Scan, id: Id): (r: seq<Id>)
    ensures forall l :: l in r ==> l in db.links && db.links[l].comicBookId == id
  {
    Filter(IsLinkOf(db, id), scan.links)
  }

  /** In a valid scan, `LinksOf` lists every association row of the comic
      exactly once. */
  lemma LinksOfEnumerates(db: Db, scan: Scan, id: Id)
    requires ValidScan(db, scan)
    ensures Enumerates(LinksOf(db, scan, id), LinkIdsOf(db, id))
  {
    FilterDistinct(IsLinkOf(db, id), scan.links);
  }

  function GenreNames(db: Db, scan: Scan, id: Id): (r: seq<string>)
    ensures |r| == |LinksOf(db, scan, id)|
  {
    var ls := LinksOf(db, scan, id);
    seq(|ls|, i requires 0 <= i < |ls| => GenreLabel(db, db.links[ls[i]]))
  }

  /** A comic's genre names depend only on its association rows and the
      genres they point at. */
  lemma GenreNamesFramed(db: Db, scan: Scan, db': Db, scan': Scan, id: Id)
    requires LinksOf(db', scan', id) == LinksOf(db, scan, id)
    requires db'.genres == db.genres
    requires forall l :: l in LinksOf(db, scan, id) ==> db'.links[l] == db.links[l]
    ensures GenreNames(db', scan', id) == GenreNames(db, scan, id)
  {
    var ls := LinksOf(db, scan, id);
    assert forall i :: 0 <= i < |ls| ==> db'.links[ls[i]] == db.links[ls[i]] by {
      forall i | 0 <= i < |ls|
        ensures db'.links[ls[i]] == db.links[ls[i]]
      {
        var l := ls[i];
        assert l in LinksOf(db, scan, id);
        assert db'.links[l] == db.links[l];
      }
    }
  }

  /** The read shape of stored comic `id`. */
  function Serialize(db: Db, scan: Scan, id: Id): ComicView
    requires id in db.comics
    requires ValidScan(db, scan)
  {
    var c := db.comics[id];
    ComicView(id, c.title, PublisherName(db, c.publisherId), c.rating, c.reviews,
              ServedImage(c.imageUrl), GenreNames(db, scan, id))
  }

  /** A comic reads as its stored row: its own scalar fields, the publisher's
      name or the fallback, and the served image path. */
  lemma SerializeShowsStoredRow(db: Db, scan: Scan, id: Id)
    requires id in db.comics
    requires ValidScan(db, scan)
    ensures var r, c := Serialize(db, scan, id), db.comics[id];
      && r.id == id && r.title == c.title && r.rating == c.rating && r.reviews == c.reviews
      && (c.publisherId in db.publishers ==> r.publisher == db.publishers[c.publisherId].name)
      && (c.publisherId !in db.publishers ==> r.publisher == UnknownPublisher)
      && (IsTruthy(c.imageUrl) ==> r.imageUrl == Some(ImagePrefix + c.imageUrl.value))
      && (!IsTruthy(c.imageUrl) ==> r.imageUrl == None)
  {
  }

  /** A comic lists one genre label per association row pointing at it, each
      row exactly once. */
  lemma SerializeListsEveryLink(db: Db, scan: Scan, id: Id)
    requires id in db.comics
    requires ValidScan(db, scan)
    ensures exists ls ::
      && Enumerates(ls, LinkIdsOf(db, id))
      && |Serialize(db, scan, id).genres| == |ls|
      && forall i :: 0 <= i < |ls| ==>
           ls[i] in db.links && Serialize(db, scan, id).genres[i] == GenreLabel(db, db.links[ls[i]])
  {
    LinksOfEnumerates(db, scan, id);
    var ls := LinksOf(db, scan, id);
    var names := GenreNames(db, scan, id);
    assert Serialize(db, scan, id).genres == names;
    forall i | 0 <= i < |ls|
      ensures ls[i] in db.links && names[i] == GenreLabel(db, db.links[ls[i]])
    {
      assert ls[i] in ls;
    }
  }

  /** Every listed genre name is the label of an association row of the comic,
      and every such row's label is listed. */
  lemma GenreNamesAreLinkLabels(db: Db, scan: Scan, id: Id)
    requires ValidScan(db, scan)
    ensures forall k :: 0 <= k < |GenreNames(db, scan, id)| ==>
      exists l :: l in db.links && db.links[l].comicBookId == id
                  && GenreNames(db, scan, id)[k] == GenreLabel(db, db.links[l])
    ensures forall l :: l in db.links && db.links[l].comicBookId == id ==>
      GenreLabel(db, db.links[l]) in GenreNames(db, scan, id)
  {
    var names := GenreNames(db, scan, id);
    var ls := LinksOf(db, scan, id);
    forall k | 0 <= k < |names|
      ensures exists l :: l in db.links && db.links[l].comicBookId == id && names[k] == GenreLabel(db, db.links[l])
    {
      var l := ls[k];
      assert l in ls;
      assert l in db.links && db.links[l].comicBookId == id;
      assert names[k] == GenreLabel(db, db.links[l]);
    }
    forall l | l in db.links && db.links[l].comicBookId == id
      ensures GenreLabel(db, db.links[l]) in names
    {
      LinksOfEnumerates(db, scan, id);
      assert l in LinkIdsOf(db, id);
      var k :| 0 <= k < |ls| && ls[k] == l;
      assert names[k] == GenreLabel(db, db.links[l]);
    }
  }

  /** The read shape of stored comic `id` without its genres. */
  function Summarize(db: Db, id: Id): ComicSummary
    requires id in db.comics
  {
    var c := db.comics[id];
    ComicSummary(id, c.title, PublisherName(db, c.publisherId), c.rating, c.reviews, ServedImage(c.imageUrl))
  }
}
