/** The application shell: the search box's state, the rule that turns a
    typed term into a navigation, and the route table. */
module App {
  import opened Wrappers
  import opened Text

  const SearchRoutePrefix: string := "/search/"
  const EnterKey: string := "Enter"

  /** The typed search term and the location: the path the browser reports
      after the last navigation. */
  datatype AppState = AppState(searchTerm: string, location: string)

  /** The page a location renders. `ListView` carries the route's search term,
      `None` on the unfiltered catalog route. */
  datatype View = FormView | ListView(searchTerm: Option<string>) | AboutView | NoMatch

  /** `s.split(c)`: the pieces between the occurrences of `c`. They hold no
      `c`, and joining them with `c` gives `s` back. */
  function SplitOn(s: string, c: char): (parts: seq<string>)
    ensures |parts| > 0
    ensures forall k :: 0 <= k < |parts| ==> c !in parts[k]
    ensures Join(parts, [c]) == s
    decreases |s|
  {
    if c !in s then [s]
    else
      var i := IndexOf(s, c);
      var rest := SplitOn(s[i + 1..], c);
      assert ([s[..i]] + rest)[1..] == rest;
      assert s == s[..i] + [c] + s[i + 1..];
      [s[..i]] + rest
  }

  /** A path segment the URL parser reads as `.`: the dot itself or `%2e`, in
      either case. */
  predicate IsSingleDot(seg: string) {
    Lower(seg) == "." || Lower(seg) == "%2e"
  }

  /** A path segment the URL parser reads as `..`. */
  predicate IsDoubleDot(seg: string) {
    var l := Lower(seg);
    l == ".." || l == ".%2e" || l == "%2e." || l == "%2e%2e"
  }

  predicate IsDotSegment(seg: string) {
    IsSingleDot(seg) || IsDoubleDot(seg)
  }

  /** The URL parser's walk over the segments of a path (the path state of the
      WHATWG URL Standard): `..` drops the last kept segment, `.` is skipped,
      and either one as the last segment leaves the path ending in `/`. No
      dot segment survives. */
  function ResolveSegments(segs: seq<string>, kept: seq<string>): (r: seq<string>)
    requires forall k :: 0 <= k < |kept| ==> !IsDotSegment(kept[k])
    ensures forall k :: 0 <= k < |r| ==> !IsDotSegment(r[k])
    ensures |segs| > 0 ==> |r| > 0
    decreases |segs|
  {
    if |segs| == 0 then kept
    else
      var seg := segs[0];
      var kept' :=
        if IsDoubleDot(seg) then (if |kept| > 0 then kept[..|kept| - 1] else kept)
        else if IsSingleDot(seg) then kept
        else kept + [seg];
      if |segs| == 1 && IsDotSegment(seg) then kept' + [""]
      else ResolveSegments(segs[1..], kept')
  }

  /** The location the browser reports after `navigate(path)` to an absolute
      path: `pushState` resolves the path's dot segments. */
  function BrowserPath(path: string): (r: string)
    requires |path| > 0 && path[0] == '/'
    ensures |r| > 0 && r[0] == '/'
  {
    "/" + Join(ResolveSegments(SplitOn(path[1..], '/'), []), "/")
  }

  /** The segments of `/search/` plus a segment without `/`. */
  lemma SplitSearchPath(seg: string)
    requires '/' !in seg
    ensures SplitOn((SearchRoutePrefix + seg)[1..], '/') == ["search", seg]
  {
    var rest := (SearchRoutePrefix + seg)[1..];
    assert rest == "search" + ['/'] + seg;
    IndexOfAfter("search", '/', seg);
    assert rest[..6] == "search" && rest[7..] == seg;
  }

  /** Where a search lands in the browser: the search route itself for an
      encoded term that is no dot segment, `/` for `..` and the bare
      `/search/` for `.`. */
  lemma SearchPathResolution(seg: string)
    requires '/' !in seg
    ensures !IsDotSegment(seg) ==> BrowserPath(SearchRoutePrefix + seg) == SearchRoutePrefix + seg
    ensures IsDoubleDot(seg) ==> BrowserPath(SearchRoutePrefix + seg) == "/"
    ensures IsSingleDot(seg) ==> BrowserPath(SearchRoutePrefix + seg) == SearchRoutePrefix
  {
    SplitSearchPath(seg);
    assert Lower("search")[0] == 's';
    assert !IsDotSegment("search") && !IsDotSegment("");
    assert [] + ["search"] == ["search"];
    var r := ResolveSegments(["search", seg], []);
    assert ["search", seg][1..] == [seg];
    assert r == ResolveSegments([seg], ["search"]);
    if IsDoubleDot(seg) {
      assert r == [""];
    } else if IsSingleDot(seg) {
      assert r == ["search", ""];
      assert ["search", ""][1..] == [""];
    } else {
      assert r == ["search", seg];
      assert ["search", seg][1..] == [seg];
    }
  }

  /** Typing stores the input's value as typed. */
  function HandleSearchChange(s: AppState, value: string): AppState {
    s.(searchTerm := value)
  }

  /** Where a search for `term` navigates: nowhere when the term is blank after
      trimming, otherwise the search route with the untrimmed term encoded. */
  function SearchNavigation(term: string, encode: string -> string): Option<string> {
    if Trim(term) != "" then Some(SearchRoutePrefix + encode(term)) else None
  }

  /** A search navigates exactly when the term holds a non-whitespace
      character. */
  lemma SearchNavigatesIff(term: string, encode: string -> string)
    ensures SearchNavigation(term, encode).Some? <==> exists i :: 0 <= i < |term| && !IsWhitespace(term[i])
  {
    TrimEmptyIff(term);
  }

  /** The search button and the Enter key: navigate when there is somewhere
      to go; the typed term is kept either way. */
  function HandleSearch(s: AppState, encode: string -> string): AppState {
    match SearchNavigation(s.searchTerm, encode)
    case Some(path) => s.(location := BrowserPath(path))
    case None => s
  }

  /** Only Enter searches; every other key leaves the state as it is. */
  function HandleKeyDown(s: AppState, key: string, encode: string -> string): AppState {
    if key == EnterKey then HandleSearch(s, encode) else s
  }

  /** A key press changes the state only when it is Enter and the term holds a
      non-whitespace character; then it moves to where the browser puts the
      search route and keeps the typed term. Enter on such a term always does
      so. */
  lemma KeyDownSearchesOnlyOnEnter(s: AppState, key: string, encode: string -> string)
    ensures HandleKeyDown(s, key, encode) != s ==>
      && key == EnterKey
      && (exists i :: 0 <= i < |s.searchTerm| && !IsWhitespace(s.searchTerm[i]))
      && HandleKeyDown(s, key, encode) == s.(location := BrowserPath(SearchRoutePrefix + encode(s.searchTerm)))
    ensures key == EnterKey && (exists i :: 0 <= i < |s.searchTerm| && !IsWhitespace(s.searchTerm[i])) ==>
      HandleKeyDown(s, key, encode) == s.(location := BrowserPath(SearchRoutePrefix + encode(s.searchTerm)))
  {
    TrimEmptyIff(s.searchTerm);
  }

  /** `path` matches `/search/:searchTerm`: one non-empty segment after the
      prefix. */
  predicate IsSearchPath(path: string) {
    && |path| > |SearchRoutePrefix|
    && path[..|SearchRoutePrefix|] == SearchRoutePrefix
    && '/' !in path[|SearchRoutePrefix|..]
  }

  /** The route table; `decode` is the router's decoding of the path segment. */
  function Route(path: string, decode: string -> string): (v: View)
    ensures v == FormView <==> path == "/"
    ensures v == ListView(None) <==> path == "/comicbooks"
    ensures v == AboutView <==> path == "/about"
    ensures v.ListView? && v.searchTerm.Some? <==> IsSearchPath(path)
    ensures IsSearchPath(path) ==> v == ListView(Some(decode(path[|SearchRoutePrefix|..])))
  {
    if path == "/" then FormView
    else if path == "/comicbooks" then
      assert path[1] != SearchRoutePrefix[1];
      ListView(None)
    else if path == "/about" then AboutView
    else if IsSearchPath(path) then ListView(Some(decode(path[|SearchRoutePrefix|..])))
    else NoMatch
  }

  /** A search that navigates lands on the list view, and the list view sees
      the term exactly as it was typed (untrimmed), unless the encoded term is
      a dot segment: the browser resolves `/search/..` to the form at `/` and
      `/search/.` to `/search/`, which no route matches. */
  lemma SearchLandsOnList(s: AppState, encode: string -> string, decode: string -> string)
    requires UriCodec(encode, decode)
    requires Trim(s.searchTerm) != ""
    ensures var seg := encode(s.searchTerm);
      var view := Route(HandleSearch(s, encode).location, decode);
      && (!IsDotSegment(seg) ==> view == ListView(Some(s.searchTerm)))
      && (IsDoubleDot(seg) ==> view == FormView)
      && (IsSingleDot(seg) ==> view == NoMatch)
  {
    var seg := encode(s.searchTerm);
    var path := SearchRoutePrefix + seg;
    SearchPathResolution(seg);
    assert s.searchTerm != "";
    if !IsDotSegment(seg) {
      assert path[..|SearchRoutePrefix|] == SearchRoutePrefix;
      assert path[|SearchRoutePrefix|..] == seg;
    }
  }

  /** What was typed is what is searched: after typing `value`, a search
      lands on the list view with `value` as its term exactly when `value`
      encodes to no dot segment. A blank `value` changes nothing but the
      term. */
  lemma TypedValueIsSearched(s: AppState, value: string, encode: string -> string, decode: string -> string)
    requires UriCodec(encode, decode)
    ensures var typed := HandleSearchChange(s, value);
      && typed.searchTerm == value
      && (Trim(value) != "" ==>
            (Route(HandleSearch(typed, encode).location, decode) == ListView(Some(value))
             <==> !IsDotSegment(encode(value))))
      && (Trim(value) == "" ==> HandleSearch(typed, encode) == s.(searchTerm := value))
  {
    if Trim(value) != "" {
      SearchLandsOnList(HandleSearchChange(s, value), encode, decode);
    }
  }
}
