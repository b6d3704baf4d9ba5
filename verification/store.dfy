/** The four tables of the catalog database, held in memory as maps from
    primary key to row. A row does not repeat its own key. */
module Store {
  import opened Wrappers
  import opened Seqs

  type Id = int

  datatype Publisher = Publisher(name: string)

  /** `imageUrl` is the stored file name (nullable); `rating` is the float
      column, modelled as a real. */
  datatype ComicBook = ComicBook(
    title: string,
    publisherId: Id,
    rating: real,
    reviews: int,
    imageUrl: Option<string>)

  datatype Genre = Genre(name: string)

  /** The association row between a comic and a genre. */
  datatype ComicBookGenre = ComicBookGenre(comicBookId: Id, genreId: Id, userRating: real)

  datatype Db = Db(
    publishers: map<Id, Publisher>,
    comics: map<Id, ComicBook>,
    genres: map<Id, Genre>,
    links: map<Id, ComicBookGenre>)

  /** The order in which the database hands back the rows of each table when a
      query has no ORDER BY. Any order is allowed; `ValidScan` only demands that
      each table is listed completely and without repetition. */
  datatype Scan = Scan(publishers: seq<Id>, comics: seq<Id>, genres: seq<Id>, links: seq<Id>)

  predicate ValidScan(db: Db, scan: Scan) {
    && Enumerates(scan.publishers, db.publishers.Keys)
    && Enumerates(scan.comics, db.comics.Keys)
    && Enumerates(scan.genres, db.genres.Keys)
    && Enumerates(scan.links, db.links.Keys)
  }

  /** The keys of the association rows that point at comic `id`. */
  ghost function LinkIdsOf(db: Db, id: Id): set<Id> {
    set l | l in db.links && db.links[l].comicBookId == id
  }

  /** Every association row points at a stored comic: the seed data links
      only stored comics, a create links only the comic it stores, and a
      delete removes a comic's rows with it. */
  predicate LinksPointAtComics(db: Db) {
    forall l :: l in db.links ==> db.links[l].comicBookId in db.comics
  }

  /** No association row points at comic `id`. */
  predicate NoLinkTo(db: Db, id: Id) {
    forall l :: l in db.links ==> db.links[l].comicBookId != id
  }

  /** Under the invariant, an id no comic has is one no row points at. */
  lemma FreshIdHasNoLinks(db: Db, id: Id)
    requires LinksPointAtComics(db) && id !in db.comics
    ensures NoLinkTo(db, id)
  {
  }
}
