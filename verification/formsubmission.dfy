/** The `genres[]` field the creation form sends. The form appends the whole
    array of checked names as ONE multipart field, which the browser turns
    into a string the way `Array.prototype.toString` does: the names joined
    by ",". The server then looks for a genre of that joined name. */
module FormSubmission {
  import opened Wrappers
  import opened Seqs
  import opened Text
  import opened Store
  import opened ReadShape
  import opened ComicBookResource

  /** The `genres[]` values the server receives, as the form is written. */
  function GenresFieldAsWritten(checked: seq<string>): seq<string> {
    [Join(checked, ",")]
  }

  /** The `genres[]` values the server receives when each checked name is
      appended as its own field. */
  function GenresFieldCorrected(checked: seq<string>): seq<string> {
    checked
  }

  /** The seeded catalog's first two genres, with no comics yet. */
  function TwoGenreDb(): Db {
    Db(map[], map[], map[1 := Genre("Action"), 2 := Genre("Horror")], map[])
  }

  /** Submitting the form as written with two checked genres that both exist
      creates the comic with no genre at all. */
  lemma AsWrittenFormDropsGenres()
    ensures var db := TwoGenreDb();
      var scan := Scan([], [], [1, 2], []);
      var form := CreateForm("Saga", 1, 5.0, GenresFieldAsWritten(["Action", "Horror"]), None);
      && ValidScan(db, scan)
      && Post(db, scan, form, s => s, 7, [10]).db.links == map[]
  {
    var db := TwoGenreDb();
    var scan := Scan([], [], [1, 2], []);
    var joined := Join(["Action", "Horror"], ",");
    assert joined == "Action,Horror";
    assert db.genres[1].name != joined && db.genres[2].name != joined;
    var form := CreateForm("Saga", 1, 5.0, GenresFieldAsWritten(["Action", "Horror"]), None);
    assert ResolveGenre(db, scan, form.genres[0]).None?;
    var r := Post(db, scan, form, s => s, 7, [10]);
    assert 10 !in r.db.links;
    assert r.db.links.Keys == {};
  }

  /** With one field per checked name, the created comic reads back with
      exactly the checked genres, when each names an existing genre and the
      comic is stored. */
  lemma CorrectedFormKeepsGenres(db: Db, scan: Scan, title: string, publisherId: Id, rating: real,
                                 checked: seq<string>, image: Option<Upload>, sanitize: string -> string,
                                 newId: Id, linkIds: seq<Id>, scan': Scan)
    requires ValidScan(db, scan)
    requires forall i :: 0 <= i < |checked| ==> exists g :: g in db.genres && db.genres[g].name == checked[i]
    requires LinksPointAtComics(db) && newId !in db.comics
    requires |linkIds| == |checked| && Distinct(linkIds)
    requires forall i :: 0 <= i < |linkIds| ==> linkIds[i] !in db.links
    requires ValidScan(
      Post(db, scan, CreateForm(title, publisherId, rating, GenresFieldCorrected(checked), image),
           sanitize, newId, linkIds).db, scan')
    ensures ImageSaves(image, sanitize) ==>
      var form := CreateForm(title, publisherId, rating, GenresFieldCorrected(checked), image);
      var r := GetOne(Post(db, scan, form, sanitize, newId, linkIds).db, scan', newId);
      && r.status == StatusOk
      && (forall k :: 0 <= k < |r.body.view.genres| ==> r.body.view.genres[k] in checked)
      && (forall j :: 0 <= j < |checked| ==> checked[j] in r.body.view.genres)
  {
    var form := CreateForm(title, publisherId, rating, GenresFieldCorrected(checked), image);
    PostThenGetRoundTrip(db, scan, form, sanitize, newId, linkIds, scan');
  }
}
