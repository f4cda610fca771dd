/** The RouMan5 (肉漫屋) adapter: listing, search and chapter requests whose
    remote page index starts at 0, the site's embedded JSON payloads turned
    into catalog entries, a newest-first chapter list, and a page list with
    an API fallback. The JSON payloads are given as records. */
module RouMan5 {
  import opened Text
  import opened Source

  const BaseUrl: string := "https://rouman5.com"

  // ---------------------------------------------------------------------------
  // Requests

  /** The remote page index: the host's page number (from 1) minus one, as
      Kotlin `Int` arithmetic. */
  function RemotePage(page: Int32): (r: int)
    ensures -TWO_31 < page ==> r == page - 1
  {
    WrapInt32(page - 1)
  }

  /** Different page numbers give different remote indices. */
  lemma RemotePageInjective(p: Int32, q: Int32)
    requires p != q
    ensures RemotePage(p) != RemotePage(q)
  {
    if p == -TWO_31 {
      assert RemotePage(p) == TWO_31 - 1;
    } else if q == -TWO_31 {
      assert RemotePage(q) == TWO_31 - 1;
    }
  }

  /** `popularMangaRequest`: books sorted by rating. */
  function PopularMangaRequest(page: Int32): string {
    BaseUrl + "/books?sort=rate&page=" + IntToString(RemotePage(page))
  }

  /** `latestUpdatesRequest`: books in the default (update) order. */
  function LatestUpdatesRequest(page: Int32): string {
    BaseUrl + "/books?sort=&page=" + IntToString(RemotePage(page))
  }

  /** Both listings ask for remote page `page - 1`, and different pages of a
      listing are different urls. */
  lemma ListingRequests(p: Int32, q: Int32)
    requires -TWO_31 < p
    ensures EndsWith(PopularMangaRequest(p), "&page=" + IntToString(p - 1))
    ensures EndsWith(LatestUpdatesRequest(p), "&page=" + IntToString(p - 1))
    ensures p != q ==> PopularMangaRequest(p) != PopularMangaRequest(q)
    ensures p != q ==> LatestUpdatesRequest(p) != LatestUpdatesRequest(q)
  {
    var n := IntToString(p - 1);
    assert RemotePage(p) == p - 1;
    assert PopularMangaRequest(p) == (BaseUrl + "/books?sort=rate") + ("&page=" + n);
    EndsWithConcat(BaseUrl + "/books?sort=rate", "&page=" + n);
    assert LatestUpdatesRequest(p) == (BaseUrl + "/books?sort=") + ("&page=" + n);
    EndsWithConcat(BaseUrl + "/books?sort=", "&page=" + n);
    if p != q {
      RemotePageInjective(p, q);
      IntToStringDistinct(RemotePage(p), RemotePage(q));
      SameHeadDistinct(BaseUrl + "/books?sort=rate&page=", IntToString(RemotePage(p)), IntToString(RemotePage(q)));
      SameHeadDistinct(BaseUrl + "/books?sort=&page=", IntToString(RemotePage(p)), IntToString(RemotePage(q)));
    }
  }

  /** A filter of the search screen: a `MangaFilter` (its query name, its
      (label, value) choices and the selected index) or some other filter. */
  datatype Filter = MangaFilter(searchName: string, vals: seq<(string, string)>, state: int) | OtherFilter

  /** `toUriPart`: nothing for a choice with an empty value, else
      `name=value`; a selected index outside the choices fails as the array
      access does. */
  function ToUriPart(searchName: string, vals: seq<(string, string)>, state: int): (r: Result<string>)
    ensures r.Failure? <==> !(0 <= state < |vals|)
    ensures r.Failure? ==> r.error == IndexOutOfBounds
    ensures r.Success? ==> (r.value == "" <==> vals[state].1 == "")
    ensures r.Success? && vals[state].1 != "" ==> r.value == searchName + "=" + vals[state].1
  {
    if 0 <= state < |vals| then
      var selectVal := vals[state].1;
      Success(if selectVal != "" then searchName + "=" + selectVal else "")
    else Failure(IndexOutOfBounds)
  }

  /** The part one filter contributes: other filters contribute "". */
  function FilterPart(f: Filter): Result<string> {
    match f
    case MangaFilter(name, vals, state) => ToUriPart(name, vals, state)
    case OtherFilter => Success("")
  }

  /** The filters' parts in order with the empty ones dropped; the first
      filter that fails makes the whole fail. */
  function FilterParts(filters: seq<Filter>): Result<seq<string>>
    decreases |filters|
  {
    if |filters| == 0 then Success([])
    else match FilterPart(filters[0])
      case Failure(e) => Failure(e)
      case Success(p) =>
        match FilterParts(filters[1..])
        case Failure(e) => Failure(e)
        case Success(ps) => Success(if p == "" then ps else [p] + ps)
  }

  /** The parts succeed exactly when every filter's part does; then they
      are the non-empty parts of the filters and nothing else. */
  lemma {:induction false} FilterPartsSpec(filters: seq<Filter>)
    ensures FilterParts(filters).Success? <==> forall k :: 0 <= k < |filters| ==> FilterPart(filters[k]).Success?
    ensures FilterParts(filters).Success? ==> forall x :: x in FilterParts(filters).value <==>
      x != "" && exists k :: 0 <= k < |filters| && FilterPart(filters[k]) == Success(x)
    decreases |filters|
  {
    if |filters| > 0 {
      var tail := filters[1..];
      FilterPartsSpec(tail);
      forall k | 1 <= k < |filters| ensures filters[k] == tail[k - 1] { }
      if FilterParts(filters).Success? {
        var p := FilterPart(filters[0]).value;
        forall x ensures x in FilterParts(filters).value <==>
          x != "" && exists k :: 0 <= k < |filters| && FilterPart(filters[k]) == Success(x)
        {
          if x in FilterParts(tail).value {
            var k :| 0 <= k < |tail| && FilterPart(tail[k]) == Success(x);
            assert FilterPart(filters[k + 1]) == Success(x);
          }
          if x != "" && exists k :: 0 <= k < |filters| && FilterPart(filters[k]) == Success(x) {
            var k :| 0 <= k < |filters| && FilterPart(filters[k]) == Success(x);
            if k > 0 {
              assert FilterPart(tail[k - 1]) == Success(x);
            }
          }
        }
      } else if FilterPart(filters[0]).Success? {
        var k :| 0 <= k < |tail| && !FilterPart(tail[k]).Success?;
        assert !FilterPart(filters[k + 1]).Success?;
      }
    }
  }

  /** `searchMangaRequest`: with some filter part and no query, the books
      listing of remote page `page - 1` narrowed by the parts joined with
      `&`; otherwise the text search for the query, whatever the filters.
      `canon` stands for OkHttp's parse-and-print of the url. */
  function SearchMangaRequest(page: Int32, query: string, filters: seq<Filter>, canon: string -> string): (r: Result<string>)
    ensures r.Failure? <==> FilterParts(filters).Failure?
  {
    var searchUrl := BaseUrl + "/search?term=" + query + "&page=" + IntToString(RemotePage(page));
    var booksUrl := BaseUrl + "/books?page=" + IntToString(RemotePage(page));
    match FilterParts(filters)
    case Failure(e) => Failure(e)
    case Success(parts) =>
      var params := Join(parts, "&");
      Success(canon(if params != "" && query == "" then booksUrl + "&" + params else searchUrl))
  }

  /** Joining non-empty parts is empty only for no parts. */
  lemma JoinNonEmpty(parts: seq<string>, d: string)
    requires forall k :: 0 <= k < |parts| ==> parts[k] != ""
    ensures Join(parts, d) == "" <==> parts == []
  {
    if |parts| >= 2 {
      JoinCons(parts[0], parts[1..], d);
      assert [parts[0]] + parts[1..] == parts;
    }
  }

  /** The two shapes of the search url: the books listing with the joined
      parts when there is no query and some part, the text search otherwise. */
  lemma SearchMangaRequestCases(page: Int32, query: string, filters: seq<Filter>, canon: string -> string)
    requires FilterParts(filters).Success?
    ensures query == "" && FilterParts(filters).value != [] ==>
      SearchMangaRequest(page, query, filters, canon)
        == Success(canon(BaseUrl + "/books?page=" + IntToString(RemotePage(page)) + "&" + Join(FilterParts(filters).value, "&")))
    ensures query != "" || FilterParts(filters).value == [] ==>
      SearchMangaRequest(page, query, filters, canon)
        == Success(canon(BaseUrl + "/search?term=" + query + "&page=" + IntToString(RemotePage(page))))
  {
    var parts := FilterParts(filters).value;
    FilterPartsSpec(filters);
    forall k | 0 <= k < |parts| ensures parts[k] != "" {
      assert parts[k] in parts;
    }
    JoinNonEmpty(parts, "&");
  }

  /** A search with a query does not depend on the filters. */
  lemma SearchIgnoresFilters(page: Int32, query: string, f: seq<Filter>, g: seq<Filter>, canon: string -> string)
    requires query != "" && FilterParts(f).Success? && FilterParts(g).Success?
    ensures SearchMangaRequest(page, query, f, canon) == SearchMangaRequest(page, query, g, canon)
  {
    SearchMangaRequestCases(page, query, f, canon);
    SearchMangaRequestCases(page, query, g, canon);
  }

  /** The joined parameters split back on `&` into the filter parts when no
      part holds an `&`. */
  lemma FilterParamsSplitBack(filters: seq<Filter>)
    requires FilterParts(filters).Success? && FilterParts(filters).value != []
    requires forall k :: 0 <= k < |FilterParts(filters).value| ==> '&' !in FilterParts(filters).value[k]
    ensures Split(Join(FilterParts(filters).value, "&"), "&") == FilterParts(filters).value
  {
    SplitJoin(FilterParts(filters).value, "&");
  }

  // ---------------------------------------------------------------------------
  // Listings

  /** A book object of the embedded JSON. `continued` is whatever
      `optBoolean` decodes from the `continued` key, or nothing when it
      decodes no boolean. */
  datatype Book = Book(
    id: string,
    name: string,
    coverUrlTop: string,
    author: string,
    description: string,
    continued: Option<bool>,
    tags: seq<string>)

  /** The listing payload: its `hasNextPage` and `books`. */
  datatype Listing = Listing(hasNextPage: bool, books: seq<Book>)

  /** `optBoolean("continued")`: a missing value reads as false. */
  function BookStatus(continued: Option<bool>): (s: Status)
    ensures s == Ongoing <==> continued == Some(true)
    ensures s == Completed <==> continued != Some(true)
  {
    if continued == Some(true) then Ongoing else Completed
  }

  /** The entry for a book: url `/books/<id>`, its name, cover, author,
      description, status and tags joined with ", ". */
  function BookManga(book: Book): Manga {
    Manga("/books/" + book.id, book.name, Some(book.coverUrlTop), Some(book.author), Some(book.description),
          Some(Join(book.tags, ", ")), BookStatus(book.continued))
  }

  /** The entry's url gives the id back, and its genre splits back into the
      tags when no tag holds a comma. */
  lemma BookMangaRoundTrip(book: Book)
    ensures RemovePrefix(BookManga(book).url, "/books/") == book.id
    ensures |book.tags| > 0 && (forall k :: 0 <= k < |book.tags| ==> ',' !in book.tags[k]) ==>
      Split(BookManga(book).genre.value, ", ") == book.tags
  {
    assert ("/books/" + book.id)[..7] == "/books/";
    if |book.tags| > 0 && forall k :: 0 <= k < |book.tags| ==> ',' !in book.tags[k] {
      SplitJoin(book.tags, ", ");
    }
  }

  /** `mangaFromBook`: the tags are copied one by one into a list that is
      then joined. */
  method MangaFromBook(book: Book) returns (m: Manga)
    ensures m == BookManga(book)
  {
    var tmparr: seq<string> := [];
    for i := 0 to |book.tags|
      invariant tmparr == book.tags[..i]
    {
      tmparr := tmparr + [book.tags[i]];
    }
    assert tmparr == book.tags;
    m := Manga("/books/" + book.id, book.name, Some(book.coverUrlTop), Some(book.author), Some(book.description),
               Some(Join(tmparr, ", ")), BookStatus(book.continued));
  }

  /** The shared listing parse of popular, latest and search: one entry per
      book in order, and the payload's `hasNextPage` as it is. */
  method ParseListing(listing: Listing) returns (mp: MangasPage)
    ensures |mp.mangas| == |listing.books|
    ensures forall k :: 0 <= k < |listing.books| ==> mp.mangas[k] == BookManga(listing.books[k])
    ensures mp.hasNextPage == listing.hasNextPage
  {
    var ret: seq<Manga> := [];
    for i := 0 to |listing.books|
      invariant |ret| == i
      invariant forall k :: 0 <= k < i ==> ret[k] == BookManga(listing.books[k])
    {
      var m := MangaFromBook(listing.books[i]);
      ret := ret + [m];
    }
    mp := MangasPage(ret, listing.hasNextPage);
  }

  // ---------------------------------------------------------------------------
  // Chapters

  /** The book object of a manga page: its id, `lastUpdate` text and chapter
      names in site order. */
  datatype BookDetail = BookDetail(id: string, lastUpdate: string, chapters: seq<string>)

  /** The i-th chapter in site order: url `/books/<id>/<i>` and the i-th name. */
  function SiteChapter(book: BookDetail, i: int, time: int): Chapter
    requires 0 <= i < |book.chapters|
  {
    Chapter("/books/" + book.id + "/" + IntToString(i), book.chapters[i], time)
  }

  /** `chapterListParse`: `parseDate` is the date format's `parse` of the
      book's `lastUpdate`, which throws `ParseException` on a text it cannot
      read (`None`), so no chapter list is produced. Otherwise the chapters
      are built in site order, all with the parsed time, and returned newest
      first: position k holds site chapter n-1-k. */
  method ChapterListParse(book: BookDetail, parseDate: string -> Option<int>) returns (r: Result<seq<Chapter>>)
    ensures r.Failure? <==> parseDate(book.lastUpdate).None?
    ensures r.Failure? ==> r.error == ParseError
    ensures r.Success? ==> |r.value| == |book.chapters|
    ensures r.Success? ==> forall k :: 0 <= k < |r.value| ==>
      r.value[k] == SiteChapter(book, |book.chapters| - 1 - k, parseDate(book.lastUpdate).value)
  {
    var parsed := parseDate(book.lastUpdate);
    if parsed.None? {
      return Failure(ParseError);
    }
    var time := parsed.value;
    var ret: seq<Chapter> := [];
    for i := 0 to |book.chapters|
      invariant |ret| == i
      invariant forall k :: 0 <= k < i ==> ret[k] == SiteChapter(book, k, time)
    {
      ret := ret + [Chapter("/books/" + book.id + "/" + IntToString(i), book.chapters[i], time)];
    }
    ReversedAt(ret);
    r := Success(Reversed(ret));
  }

  /** The chapter urls are pairwise different, and all chapters share one
      upload time. */
  lemma SiteChaptersDistinct(book: BookDetail, i: int, j: int, time: int)
    requires 0 <= i < |book.chapters| && 0 <= j < |book.chapters| && i != j
    ensures SiteChapter(book, i, time).url != SiteChapter(book, j, time).url
    ensures SiteChapter(book, i, time).dateUpload == SiteChapter(book, j, time).dateUpload
  {
    IntToStringDistinct(i, j);
    SameHeadDistinct("/books/" + book.id + "/", IntToString(i), IntToString(j));
  }

  // ---------------------------------------------------------------------------
  // Pages

  /** The url of the API fallback: the request url with `/books/` replaced
      by `/api/books/`. */
  function ApiUrl(url: string): string {
    ReplaceAll(url, "/books/", "/api/books/")
  }

  /** For a chapter url of the site the fallback is the same chapter under
      `/api/books/`. */
  lemma ApiUrlOfChapter(rest: string)
    requires !Contains(rest, "/books/")
    ensures ApiUrl(BaseUrl + "/books/" + rest) == BaseUrl + "/api/books/" + rest
  {
    var o := "/books/";
    var s := BaseUrl + (o + rest);
    forall i | 0 <= i < |BaseUrl| ensures !OccursAt(s, o, i) {
      if i + |o| <= |s| {
        assert s[i..i + |o|][0] == s[i];
        assert s[i..i + |o|][1] == s[i + 1];
      }
    }
    ReplaceAllSkipPrefix(BaseUrl, o + rest, o, "/api/books/");
    ReplaceAllFront(o, rest, "/api/books/");
    ReplaceAllAbsent(rest, o, "/api/books/");
    assert BaseUrl + "/books/" + rest == s;
  }

  /** The image sources the page list uses: the embedded `images`, or those
      `fetchApi` (the GET of the fallback url) returns. */
  function PageSources(images: Option<seq<string>>, requestUrl: string, fetchApi: string -> seq<string>): seq<string> {
    match images
    case Some(srcs) => srcs
    case None => fetchApi(ApiUrl(requestUrl))
  }

  /** `pageListParse`: one page per image source, numbered from 0, with an
      empty page url; `fallback` is the url fetched when the payload has no
      `images`. */
  method PageListParse(images: Option<seq<string>>, requestUrl: string, fetchApi: string -> seq<string>)
    returns (pages: seq<Page>, fallback: Option<string>)
    ensures images.Some? ==> fallback == None
    ensures images.None? ==> fallback == Some(ReplaceAll(requestUrl, "/books/", "/api/books/"))
    ensures |pages| == |PageSources(images, requestUrl, fetchApi)| && Indexed(pages)
    ensures forall k :: 0 <= k < |pages| ==>
      pages[k].url == "" && pages[k].imageUrl == Some(PageSources(images, requestUrl, fetchApi)[k])
  {
    var pageArray: seq<string>;
    if images.None? {
      var url := ReplaceAll(requestUrl, "/books/", "/api/books/");
      fallback := Some(url);
      pageArray := fetchApi(url);
    } else {
      fallback := None;
      pageArray := images.value;
    }
    var ret: seq<Page> := [];
    for i := 0 to |pageArray|
      invariant |ret| == i
      invariant forall k :: 0 <= k < i ==> ret[k] == Page(k, "", Some(pageArray[k]))
    {
      ret := ret + [Page(i, "", Some(pageArray[i]))];
    }
    pages := ret;
  }

  /** `imageUrlParse`: never used, always fails. */
  function ImageUrlParse(): (r: Result<string>)
    ensures r.Failure? && r.error.UnsupportedOperation?
  {
    Failure(UnsupportedOperation("This method should not be called!"))
  }
}
