/** How the client's pieces meet the server's: the search term travels from
    the search box through the route and the query string into the server's
    filter, and the catalog cache stays equal to the server's listing across a
    delete. */
module Sync {
  import opened Wrappers
  import opened Seqs
  import opened Text
  import opened Store
  import opened ReadShape
  import opened ComicBookResource
  import opened ComicBookList
  import opened App
  import opened SqlLike

  /** What the catalog view's `fetch` sees of a reply to its list request:
      `response.ok` is a 2xx status, and the body is an array exactly when it
      is a list of comics. */
  function Transmit(reply: Reply): (o: FetchOutcome)
    ensures o.Responded? && o.body.Some?
    ensures o.ok <==> 200 <= reply.status < 300
    ensures o.body.value.JsonArray? <==> reply.body.ComicList?
  {
    Responded(200 <= reply.status < 300,
              Some(if reply.body.ComicList? then JsonArray(reply.body.items) else JsonOther))
  }

  /** What the client's delete handler sees of a reply. */
  function DeleteSeen(reply: Reply): (o: DeleteOutcome)
    ensures o.Succeeded() <==> 200 <= reply.status < 300
  {
    DeleteResponded(200 <= reply.status < 300)
  }

  /** The server's `request.args.get('search')` for the query strings the
      list view sends: the decoded value after `?search=`, or absent. */
  function SearchArg(query: string, decode: string -> string): Option<string> {
    if |query| >= |SearchQueryPrefix| && query[..|SearchQueryPrefix|] == SearchQueryPrefix
    then Some(decode(query[|SearchQueryPrefix|..]))
    else None
  }

  /** The server filters by exactly the term the list view holds; a missing
      or empty term reaches it as no filter. */
  lemma QueryStringReachesServer(term: Option<string>, encode: string -> string, decode: string -> string)
    requires UriCodec(encode, decode)
    ensures SearchArg(QueryString(term, encode), decode).GetOr("") == term.GetOr("")
  {
    if IsTruthy(term) {
      var q := QueryString(term, encode);
      assert q[..|SearchQueryPrefix|] == SearchQueryPrefix;
      assert q[|SearchQueryPrefix|..] == encode(term.value);
    }
  }

  /** A card shows a stored image from the server's static-images path on the
      API origin, and the placeholder when no non-empty name is stored. */
  lemma DisplayedImageOfStoredName(stored: Option<string>)
    ensures IsTruthy(stored) ==> ImageSrc(ServedImage(stored)) == ApiOrigin + ImagePrefix + stored.value
    ensures !IsTruthy(stored) ==> ImageSrc(ServedImage(stored)) == DefaultImage
  {
    if IsTruthy(stored) {
      assert ApiOrigin + (ImagePrefix + stored.value) == ApiOrigin + ImagePrefix + stored.value;
    }
  }

  /** Loading the listing fills the cache with exactly the listed comics. */
  lemma FetchOfListingFillsCache(s: CatalogState, db: Db, scan: Scan, search: Option<string>)
    requires ValidScan(db, scan)
    ensures ApplyFetch(s, Transmit(List(db, scan, search))).cache == List(db, scan, search).body.items
    ensures ApplyFetch(s, Transmit(List(db, scan, search))).selection == s.selection
  {
  }

  /** A term typed into the search box and submitted ends up, untrimmed, as
      the filter of the listing the catalog view loads, unless its encoding is
      a dot segment, which the browser resolves away from the list view. */
  lemma TypedSearchFiltersListing(s: AppState, encode: string -> string, decode: string -> string,
                                  db: Db, scan: Scan, c: CatalogState)
    requires UriCodec(encode, decode)
    requires Trim(s.searchTerm) != ""
    requires ValidScan(db, scan)
    ensures var view := Route(HandleSearch(s, encode).location, decode);
      && (IsDotSegment(encode(s.searchTerm)) ==> !view.ListView?)
      && (!IsDotSegment(encode(s.searchTerm)) ==>
            && view == ListView(Some(s.searchTerm))
            && SearchArg(QueryString(view.searchTerm, encode), decode) == Some(s.searchTerm)
            && ApplyFetch(c, Transmit(List(db, scan, SearchArg(QueryString(view.searchTerm, encode), decode)))).cache
               == List(db, scan, Some(s.searchTerm)).body.items)
  {
    SearchLandsOnList(s, encode, decode);
    TrimEmptyIff(s.searchTerm);
    assert s.searchTerm != "";
    var q := QueryString(Some(s.searchTerm), encode);
    assert q[..|SearchQueryPrefix|] == SearchQueryPrefix;
    assert q[|SearchQueryPrefix|..] == encode(s.searchTerm);
  }

  /** The listing's ids after a delete are the earlier ones without the
      deleted id, in the same order. */
  lemma SelectedIdsAfterDelete(db: Db, scan: Scan, q: string, id: Id)
    requires ValidScan(db, scan) && id in db.comics
    ensures SelectedIds(Delete(db, id).db, ScanAfterDelete(db, scan, id), q)
         == Filter(IsOtherThan(id), SelectedIds(db, scan, q))
  {
    if q != "" {
      var db' := Delete(db, id).db;
      var both := x => SearchHit(db, q)(x) && x != id;
      forall x | x in scan.comics
        ensures both(x) <==> IsOtherThan(id)(x) && SearchHit(db', q)(x)
      {
        assert x in db'.comics <==> x in db.comics.Keys - {id};
        if x in db'.comics {
          assert db'.comics[x] == db.comics[x];
        }
        assert SearchHit(db, q)(x) == (x in db.comics && ILikeContains(db.comics[x].title, q));
        assert SearchHit(db', q)(x) == (x in db'.comics && ILikeContains(db'.comics[x].title, q));
      }
      FilterFilter(IsOtherThan(id), SearchHit(db', q), both, scan.comics);
      FilterFilter(SearchHit(db, q), IsOtherThan(id), both, scan.comics);
    }
  }

  /** Dropping the views with id `id` from a rendering is rendering the other
      ids against a database where they read the same. */
  lemma {:induction false} RenderDropping(db: Db, scan: Scan, db': Db, scan': Scan, id: Id, ids: seq<Id>)
    requires ValidScan(db, scan) && ValidScan(db', scan')
    requires forall i :: 0 <= i < |ids| ==> ids[i] in db.comics
    requires forall i :: 0 <= i < |ids| && ids[i] != id ==>
      ids[i] in db'.comics && Serialize(db', scan', ids[i]) == Serialize(db, scan, ids[i])
    ensures forall i :: 0 <= i < |Filter(IsOtherThan(id), ids)| ==> Filter(IsOtherThan(id), ids)[i] in db'.comics
    ensures Filter(HasOtherId(id), Render(db, scan, ids)) == Render(db', scan', Filter(IsOtherThan(id), ids))
  {
    var kept := Filter(IsOtherThan(id), ids);
    assert forall i :: 0 <= i < |kept| ==> kept[i] in db'.comics by {
      forall i | 0 <= i < |kept|
        ensures kept[i] in db'.comics
      {
        assert kept[i] in ids;
      }
    }
    if |ids| > 0 {
      var x := ids[0];
      var rest := ids[1..];
      RenderDropping(db, scan, db', scan', id, rest);
      var views := Render(db, scan, ids);
      assert views == [Serialize(db, scan, x)] + Render(db, scan, rest);
      if x != id {
        assert kept == [x] + Filter(IsOtherThan(id), rest);
        assert Render(db', scan', kept) == [Serialize(db', scan', x)] + Render(db', scan', Filter(IsOtherThan(id), rest));
      }
    }
  }

  /** The listing is the rendering of the selected ids. */
  lemma ListIsRender(db: Db, scan: Scan, search: Option<string>)
    requires ValidScan(db, scan)
    ensures var ids := SelectedIds(db, scan, search.GetOr(""));
      && (forall i :: 0 <= i < |ids| ==> ids[i] in db.comics)
      && List(db, scan, search).body.items == Render(db, scan, ids)
  {
    var ids := SelectedIds(db, scan, search.GetOr(""));
    assert forall i :: 0 <= i < |ids| ==> ids[i] in ids;
  }

  /** The views of the comics other than `id` survive its delete unchanged. */
  lemma OtherViewsSurviveDelete(db: Db, scan: Scan, id: Id, ids: seq<Id>)
    requires ValidScan(db, scan) && id in db.comics
    requires forall i :: 0 <= i < |ids| ==> ids[i] in db.comics
    ensures forall i :: 0 <= i < |ids| && ids[i] != id ==>
      && ids[i] in Delete(db, id).db.comics
      && Serialize(Delete(db, id).db, ScanAfterDelete(db, scan, id), ids[i]) == Serialize(db, scan, ids[i])
  {
    forall i | 0 <= i < |ids| && ids[i] != id
      ensures ids[i] in Delete(db, id).db.comics
      ensures Serialize(Delete(db, id).db, ScanAfterDelete(db, scan, id), ids[i]) == Serialize(db, scan, ids[i])
    {
      DeleteKeepsOtherViews(db, scan, id, ids[i]);
    }
  }

  /** After a delete of a listed id, dropping that id's views from the
      earlier listing gives the new listing. */
  lemma ListingAfterDelete(db: Db, scan: Scan, search: Option<string>, id: Id)
    requires ValidScan(db, scan) && id in db.comics
    ensures Filter(HasOtherId(id), List(db, scan, search).body.items)
         == List(Delete(db, id).db, ScanAfterDelete(db, scan, id), search).body.items
  {
    var db' := Delete(db, id).db;
    var scan' := ScanAfterDelete(db, scan, id);
    var q := search.GetOr("");
    var ids := SelectedIds(db, scan, q);
    ListIsRender(db, scan, search);
    ListIsRender(db', scan', search);
    SelectedIdsAfterDelete(db, scan, q, id);
    OtherViewsSurviveDelete(db, scan, id, ids);
    RenderDropping(db, scan, db', scan', id, ids);
  }

  /** The cache equals the server's listing before a delete request and again
      after both sides handled it: on success both drop the comic, on 404
      neither changes. */
  lemma DeleteKeepsCacheInSync(db: Db, scan: Scan, search: Option<string>, s: CatalogState, id: Id)
    requires ValidScan(db, scan)
    requires s.cache == List(db, scan, search).body.items
    ensures ApplyDelete(s, id, DeleteSeen(Delete(db, id))).cache
         == List(Delete(db, id).db, ScanAfterDelete(db, scan, id), search).body.items
  {
    if id in db.comics {
      assert DeleteSeen(Delete(db, id)).Succeeded();
      assert ApplyDelete(s, id, DeleteResponded(true)).cache == Filter(HasOtherId(id), s.cache);
      ListingAfterDelete(db, scan, search, id);
    } else {
      assert Delete(db, id).db == db && ScanAfterDelete(db, scan, id) == scan;
    }
  }
}
