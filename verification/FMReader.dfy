/** The FMReader-based sites that add behaviour of their own on top of the
    shared FMReader adapter: ReadComicOnline.org's challenge interceptor and
    page list, Manhwa18's image request, Manga-TR's search and its
    counter-driven chapter pagination, Comicastle's search url, chapter order
    and page list, and Epik Manga's local search filter. The shared FMReader
    base class is not part of this model: where a site calls into it, its
    result is an input. */
module FMReader {
  import opened Text
  import opened Source

  /** An element with its text, as the search parsers read it. */
  datatype TextElement = TextElement(element: Element, text: string)

  /** jsoup's `Element.attr(key)`: the attribute, or "" when it is missing. */
  function Attr(e: Element, key: string): string {
    if key in e.attrs then e.attrs[key] else ""
  }

  /** A form body: its fields in order. */
  type Form = seq<(string, string)>

  // ---------------------------------------------------------------------------
  // ReadComicOnline.org: the challenge interceptor

  const ReadComicOnlineBase: string := "https://readcomiconline.org"

  /** The form the interceptor posts back: the request url's remainder after
      the site's base url, URL-encoded by `enc`, as `dqh_firewall`. */
  function FirewallForm(url: string, enc: string -> string): Form {
    [("dqh_firewall", enc(SubstringAfter(url, ReadComicOnlineBase)))]
  }

  /** For a url on the site the posted field is the encoded path. */
  lemma FirewallFieldOfSitePath(path: string, enc: string -> string)
    ensures FirewallForm(ReadComicOnlineBase + path, enc) == [("dqh_firewall", enc(path))]
  {
    SubstringAfterPrefix(ReadComicOnlineBase, path);
  }

  /** For a url that does not mention the base url the whole url is encoded
      (Kotlin's `substringAfter` keeps the string when the delimiter is
      missing). */
  lemma FirewallFieldOffSite(url: string, enc: string -> string)
    requires !Contains(url, ReadComicOnlineBase)
    ensures FirewallForm(url, enc) == [("dqh_firewall", enc(url))]
  {
    ContainsIndexOf(url, ReadComicOnlineBase);
  }

  /** A `set-cookie` token that carries one of the two session cookies. */
  predicate IsSessionToken(t: string) {
    Contains(t, "__cfduid") || Contains(t, "PHPSESSID")
  }

  /** The tokens that carry a session cookie, in their order. */
  function SessionTokens(ts: seq<string>): (r: seq<string>)
    ensures |r| <= |ts|
    decreases |ts|
  {
    if |ts| == 0 then []
    else SessionTokens(ts[..|ts| - 1]) + if IsSessionToken(ts[|ts| - 1]) then [ts[|ts| - 1]] else []
  }

  /** Each token cut before its first `;`. */
  function CutAtSemicolon(ts: seq<string>): seq<string> {
    seq(|ts|, k requires 0 <= k < |ts| => SubstringBefore(ts[k], ";"))
  }

  /** The cookie string the interceptor derives from the first `set-cookie`
      value: its space-separated tokens that carry a session cookie, each cut
      before its first `;`, joined with "; ". */
  function ChallengeCookie(header: string): string {
    Join(CutAtSemicolon(SessionTokens(Split(header, " "))), "; ")
  }

  /** A token is kept exactly when it is one of the tokens and carries a
      session cookie. */
  lemma {:induction false} SessionTokensIff(ts: seq<string>, t: string)
    ensures t in SessionTokens(ts) <==> t in ts && IsSessionToken(t)
    decreases |ts|
  {
    if |ts| > 0 {
      var init := ts[..|ts| - 1];
      SessionTokensIff(init, t);
      assert ts == init + [ts[|ts| - 1]];
    }
  }

  /** Filtering keeps the order: the kept tokens of two runs of tokens are the
      kept tokens of the first run followed by those of the second. */
  lemma {:induction false} SessionTokensAppend(a: seq<string>, b: seq<string>)
    ensures SessionTokens(a + b) == SessionTokens(a) + SessionTokens(b)
    decreases |b|
  {
    if |b| == 0 {
      assert a + b == a;
    } else {
      var init := b[..|b| - 1];
      SessionTokensAppend(a, init);
      assert (a + b)[..|a + b| - 1] == a + init;
      assert (a + b)[|a + b| - 1] == b[|b| - 1];
    }
  }

  /** A cut token is the start of the token and holds no `;`. */
  lemma CutIsPrefix(t: string)
    ensures StartsWith(t, SubstringBefore(t, ";")) && ';' !in SubstringBefore(t, ";")
  {
    SubstringBeforeFree(t, ';');
  }

  /** The cookie string holds the cut session tokens and nothing else: with
      no session token it is empty, and otherwise splitting it on "; " gives
      back the cut tokens, each the start of a session token of the header. */
  lemma ChallengeCookiePieces(header: string)
    ensures SessionTokens(Split(header, " ")) == [] ==> ChallengeCookie(header) == ""
    ensures SessionTokens(Split(header, " ")) != [] ==>
      Split(ChallengeCookie(header), "; ") == CutAtSemicolon(SessionTokens(Split(header, " ")))
    ensures forall k :: 0 <= k < |CutAtSemicolon(SessionTokens(Split(header, " ")))| ==>
      StartsWith(SessionTokens(Split(header, " "))[k], CutAtSemicolon(SessionTokens(Split(header, " ")))[k])
      && IsSessionToken(SessionTokens(Split(header, " "))[k])
      && SessionTokens(Split(header, " "))[k] in Split(header, " ")
  {
    var kept := SessionTokens(Split(header, " "));
    var cuts := CutAtSemicolon(kept);
    forall k | 0 <= k < |cuts|
      ensures StartsWith(kept[k], cuts[k]) && ';' !in cuts[k]
      ensures IsSessionToken(kept[k]) && kept[k] in Split(header, " ")
    {
      CutIsPrefix(kept[k]);
      SessionTokensIff(Split(header, " "), kept[k]);
    }
    if |kept| > 0 {
      SplitJoin(cuts, "; ");
    }
  }

  /** `requestIntercept`: a response that sets no cookie passes through;
      otherwise the request is posted again to the same url with the
      `dqh_firewall` form, and that response is the result. `post` stands for
      the client's POST; the cookie string is derived from the first
      `set-cookie` value but the source never attaches it to the POST. */
  function RequestIntercept<R>(url: string, setCookies: seq<string>, response: R,
                               post: (string, Form) -> R, enc: string -> string): (r: R)
    ensures |setCookies| == 0 ==> r == response
    ensures |setCookies| > 0 ==>
      r == post(url, [("dqh_firewall", enc(SubstringAfter(url, ReadComicOnlineBase)))])
  {
    if |setCookies| == 0 then response
    else
      var cookie := ChallengeCookie(setCookies[0]);
      post(url, FirewallForm(url, enc))
  }

  /** A challenged request for a page of the site is posted back with its
      own encoded path. */
  lemma InterceptSitePath<R>(path: string, setCookies: seq<string>, response: R,
                             post: (string, Form) -> R, enc: string -> string)
    requires |setCookies| > 0
    ensures RequestIntercept(ReadComicOnlineBase + path, setCookies, response, post, enc)
      == post(ReadComicOnlineBase + path, [("dqh_firewall", enc(path))])
  {
    FirewallFieldOfSitePath(path, enc);
  }

  // ---------------------------------------------------------------------------
  // Pages from a `select`'s options (ReadComicOnline.org and Comicastle)

  /** One page per option, numbered from 0, with the option's value as the
      page url and no image url yet. */
  function OptionPages(options: seq<Element>): seq<Page> {
    seq(|options|, k requires 0 <= k < |options| => Page(k, Attr(options[k], "value"), None))
  }

  /** ReadComicOnline.org's `pageListParse`: the option pages without the
      last one, which is the comments page. */
  function ReadComicOnlinePageListParse(options: seq<Element>): (pages: seq<Page>)
    ensures |pages| == if |options| == 0 then 0 else |options| - 1
    ensures Indexed(pages)
    ensures forall k :: 0 <= k < |pages| ==> pages[k].url == Attr(options[k], "value") && pages[k].imageUrl == None
  {
    var all := OptionPages(options);
    if |all| == 0 then [] else all[..|all| - 1]
  }

  /** What ReadComicOnline.org drops is exactly the last option's page. */
  lemma ReadComicOnlineDropsLast(options: seq<Element>)
    requires |options| > 0
    ensures ReadComicOnlinePageListParse(options) + [Page(|options| - 1, Attr(options[|options| - 1], "value"), None)]
      == OptionPages(options)
  {
  }

  // ---------------------------------------------------------------------------
  // Manhwa18: the image request

  /** The image request: the shared adapter's own, or a plain GET of the
      image url with the `Referer` header removed. */
  datatype ImageRequest = BaseImageRequest(page: Page) | GetWithoutReferer(url: string)

  /** `imageRequest`: images hosted on the site go through the shared
      adapter's request; images elsewhere are fetched without a referer; a
      page without an image url fails as `!!` does. */
  function Manhwa18ImageRequest(page: Page): (r: Result<ImageRequest>)
    ensures page.imageUrl == None <==> r == Failure(NullPointer)
    ensures page.imageUrl != None && Contains(page.imageUrl.value, "manhwa18") ==> r == Success(BaseImageRequest(page))
    ensures page.imageUrl != None && !Contains(page.imageUrl.value, "manhwa18") ==> r == Success(GetWithoutReferer(page.imageUrl.value))
  {
    match page.imageUrl
    case None => Failure(NullPointer)
    case Some(url) => if Contains(url, "manhwa18") then Success(BaseImageRequest(page)) else Success(GetWithoutReferer(url))
  }

  // ---------------------------------------------------------------------------
  // Manga-TR: search

  const MangaTRBase: string := "https://manga-tr.com"

  /** A search hit: the `a[data-toggle]` link and its siblings' text. */
  datatype SearchHit = SearchHit(link: TextElement, siblingsText: string)

  predicate IsNovel(h: SearchHit) {
    Contains(h.siblingsText, "Novel")
  }

  /** `searchMangaFromElement`: the link's resolved `href` made relative by
      `rel` and the link's text as the title. */
  function MangaTRSearchMangaFromElement(link: TextElement, rel: string -> string, abs: string -> string): Manga {
    Entry(rel(AbsUrl(link.element, "href", abs)), link.text, None)
  }

  /** The search results: one entry per hit that is not a novel, in order. */
  function MangaTRSearchResults(hits: seq<SearchHit>, rel: string -> string, abs: string -> string): (r: seq<Manga>)
    ensures |r| <= |hits|
    decreases |hits|
  {
    if |hits| == 0 then []
    else
      var last := hits[|hits| - 1];
      MangaTRSearchResults(hits[..|hits| - 1], rel, abs)
        + if IsNovel(last) then [] else [MangaTRSearchMangaFromElement(last.link, rel, abs)]
  }

  /** An entry is a result exactly when some hit that is not a novel
      produces it. */
  lemma {:induction false} MangaTRSearchResultsIff(hits: seq<SearchHit>, rel: string -> string, abs: string -> string, m: Manga)
    ensures m in MangaTRSearchResults(hits, rel, abs) <==>
      exists k :: 0 <= k < |hits| && !IsNovel(hits[k]) && m == MangaTRSearchMangaFromElement(hits[k].link, rel, abs)
    decreases |hits|
  {
    if |hits| > 0 {
      var init := hits[..|hits| - 1];
      var last := hits[|hits| - 1];
      MangaTRSearchResultsIff(init, rel, abs, m);
      if m in MangaTRSearchResults(hits, rel, abs) {
        if m !in MangaTRSearchResults(init, rel, abs) {
          assert !IsNovel(hits[|hits| - 1]) && m == MangaTRSearchMangaFromElement(hits[|hits| - 1].link, rel, abs);
        } else {
          var k :| 0 <= k < |init| && !IsNovel(init[k]) && m == MangaTRSearchMangaFromElement(init[k].link, rel, abs);
          assert hits[k] == init[k];
        }
      }
      if exists k :: 0 <= k < |hits| && !IsNovel(hits[k]) && m == MangaTRSearchMangaFromElement(hits[k].link, rel, abs) {
        var k :| 0 <= k < |hits| && !IsNovel(hits[k]) && m == MangaTRSearchMangaFromElement(hits[k].link, rel, abs);
        if k < |init| {
          assert init[k] == hits[k];
        }
      }
    }
  }

  /** Filtering keeps the document order: the results for two runs of hits
      are those of the first run followed by those of the second. */
  lemma {:induction false} MangaTRSearchResultsAppend(a: seq<SearchHit>, b: seq<SearchHit>, rel: string -> string, abs: string -> string)
    ensures MangaTRSearchResults(a + b, rel, abs) == MangaTRSearchResults(a, rel, abs) + MangaTRSearchResults(b, rel, abs)
    decreases |b|
  {
    if |b| == 0 {
      assert a + b == a;
    } else {
      var init, last := b[..|b| - 1], b[|b| - 1];
      var one := if IsNovel(last) then [] else [MangaTRSearchMangaFromElement(last.link, rel, abs)];
      calc {
        MangaTRSearchResults(a + b, rel, abs);
        { assert a + b == (a + init) + [last]; }
        MangaTRSearchResults((a + init) + [last], rel, abs);
        { MangaTRSearchResultsSnoc(a + init, last, rel, abs); }
        MangaTRSearchResults(a + init, rel, abs) + one;
        { MangaTRSearchResultsAppend(a, init, rel, abs); }
        MangaTRSearchResults(a, rel, abs) + (MangaTRSearchResults(init, rel, abs) + one);
        { assert b == init + [last]; MangaTRSearchResultsSnoc(init, last, rel, abs); }
        MangaTRSearchResults(a, rel, abs) + MangaTRSearchResults(b, rel, abs);
      }
    }
  }

  lemma MangaTRSearchResultsSnoc(hits: seq<SearchHit>, h: SearchHit, rel: string -> string, abs: string -> string)
    ensures MangaTRSearchResults(hits + [h], rel, abs)
      == MangaTRSearchResults(hits, rel, abs) + if IsNovel(h) then [] else [MangaTRSearchMangaFromElement(h.link, rel, abs)]
  {
    assert (hits + [h])[..|hits|] == hits;
  }

  /** `searchMangaParse`: the hits whose siblings do not mention "Novel" are
      added one by one to the result list; there is never a next page. */
  method MangaTRSearchMangaParse(hits: seq<SearchHit>, rel: string -> string, abs: string -> string) returns (mp: MangasPage)
    ensures mp.mangas == MangaTRSearchResults(hits, rel, abs)
    ensures !mp.hasNextPage
  {
    var mangas: seq<Manga> := [];
    for i := 0 to |hits|
      invariant mangas == MangaTRSearchResults(hits[..i], rel, abs)
    {
      MangaTRSearchResultsSnoc(hits[..i], hits[i], rel, abs);
      assert hits[..i + 1] == hits[..i] + [hits[i]];
      if !Contains(hits[i].siblingsText, "Novel") {
        mangas := mangas + [MangaTRSearchMangaFromElement(hits[i].link, rel, abs)];
      }
    }
    assert hits[..|hits|] == hits;
    mp := MangasPage(mangas, false);
  }

  // ---------------------------------------------------------------------------
  // Manga-TR: the chapter list

  /** The id the chapter request names: the manga url's text after `manga-`
      and before the next `.`. */
  function MangaTRMangaId(mangaUrl: string): string {
    SubstringBefore(SubstringAfter(mangaUrl, "manga-"), ".")
  }

  /** The request url of `fetchChapterList`. */
  function MangaTRChapterRequestUrl(mangaUrl: string): string {
    MangaTRBase + "/cek/fetch_pages_manga.php?manga_cek=" + MangaTRMangaId(mangaUrl)
  }

  /** A manga url of the form `pre` + "manga-" + id + "." + rest, where `pre`
      does not already hold "manga-" and the id holds no `.`, names `id`. */
  lemma MangaTRMangaIdOf(pre: string, id: string, rest: string)
    requires !Contains(pre + "manga", "manga-") && '.' !in id
    ensures MangaTRMangaId(pre + "manga-" + id + "." + rest) == id
  {
    var u := pre + "manga-" + id + "." + rest;
    var head := pre + "manga";
    forall i | 0 <= i < |pre| ensures !OccursAt(u, "manga-", i) {
      NotContainsAt(head, "manga-", i);
      assert u[i..i + 6] == head[i..i + 6];
    }
    assert u[|pre|..|pre| + 6] == "manga-";
    assert OccursAt(u, "manga-", |pre|);
    assert IndexOf(u, "manga-") == |pre|;
    var after := id + "." + rest;
    assert u[|pre| + 6..] == after;
    forall i | 0 <= i < |id| ensures !OccursAt(after, ".", i) {
      assert after[i] == id[i];
    }
    assert after[|id|] == '.';
    assert OccursAt(after, ".", |id|);
    assert IndexOf(after, ".") == |id|;
    assert after[..|id|] == id;
  }

  /** A chapter-list fragment: the chapters the shared adapter reads from its
      rows, and the `data-page` values of its page links. */
  datatype Fragment = Fragment(chapters: seq<Chapter>, pageLinks: seq<string>)

  /** The fragment links to page `n`: it has an `a[data-page=n]`. */
  predicate LinksTo(doc: Fragment, n: int) {
    IntToString(n) in doc.pageLinks
  }

  /** The form the loop posts for page `n`. */
  function PageForm(n: int): Form {
    [("page", IntToString(n))]
  }

  /** The fragment the loop holds while its counter is `page`: the response
      to the first request while the counter is 2, and from then on the
      answer to posting the page before. A post carries only the page
      number, so the fragment depends on the counter alone. */
  function FragmentAt(first: Fragment, requestUrl: string, post: (string, Form) -> Fragment, page: int): Fragment {
    if page <= 2 then first else post(requestUrl, PageForm(page - 1))
  }

  /** The pagination ends with the counter at `last`: every fragment before
      it links to the page its counter names, and the one at `last` does not. */
  ghost predicate StopsAt(first: Fragment, requestUrl: string, post: (string, Form) -> Fragment, last: int) {
    && 2 <= last
    && (forall page :: 2 <= page < last ==> LinksTo(FragmentAt(first, requestUrl, post, page), page))
    && !LinksTo(FragmentAt(first, requestUrl, post, last), last)
  }

  /** The counter at which the pagination ends is determined by the site. */
  lemma StopsAtUnique(first: Fragment, requestUrl: string, post: (string, Form) -> Fragment, a: int, b: int)
    requires StopsAt(first, requestUrl, post, a) && StopsAt(first, requestUrl, post, b)
    ensures a == b
  {
  }

  /** The first `count` fragments the loop reads, in order. */
  function Read(first: Fragment, requestUrl: string, post: (string, Form) -> Fragment, count: nat): (docs: seq<Fragment>)
    ensures |docs| == count
  {
    seq(count, k requires 0 <= k < count => FragmentAt(first, requestUrl, post, k + 2))
  }

  /** The fragments read start with the first response; the j-th one after
      it is the answer to posting page `j + 1`. */
  lemma ReadAt(first: Fragment, requestUrl: string, post: (string, Form) -> Fragment, count: nat)
    ensures count > 0 ==> Read(first, requestUrl, post, count)[0] == first
    ensures forall j :: 1 <= j < count ==> Read(first, requestUrl, post, count)[j] == post(requestUrl, PageForm(j + 1))
  {
  }

  lemma ReadSnoc(first: Fragment, requestUrl: string, post: (string, Form) -> Fragment, count: nat)
    ensures Read(first, requestUrl, post, count + 1)
      == Read(first, requestUrl, post, count) + [FragmentAt(first, requestUrl, post, count + 2)]
  {
  }

  /** The chapters of some fragments, in order. */
  function AllChapters(docs: seq<Fragment>): seq<Chapter>
    decreases |docs|
  {
    if |docs| == 0 then [] else AllChapters(docs[..|docs| - 1]) + docs[|docs| - 1].chapters
  }

  lemma AllChaptersSnoc(docs: seq<Fragment>, doc: Fragment)
    ensures AllChapters(docs + [doc]) == AllChapters(docs) + doc.chapters
  {
    assert (docs + [doc])[..|docs|] == docs;
  }

  /** The page numbers the loop posts when it reads `count` follow-up
      fragments: 2, 3, ..., count + 1. */
  function PostedPages(count: nat): (r: seq<int>)
    ensures |r| == count && forall k :: 0 <= k < count ==> r[k] == k + 2
  {
    seq(count, k requires 0 <= k < count => k + 2)
  }

  lemma PostedPagesSnoc(count: nat)
    ensures PostedPages(count) + [count + 2] == PostedPages(count + 1)
  {
  }

  /** The private `chapterListParse`: the chapters of the first fragment,
      then, while the current fragment links to the page the counter names,
      the chapters of the fragment posting that page returns; the counter
      starts at 2 and rises by one per post. `post` stands for the client's
      POST; `last` is a proof-only name for the counter at which the site
      stops linking further pages. `posted` lists the page numbers posted. */
  method MangaTRChapterListParse(first: Fragment, requestUrl: string, post: (string, Form) -> Fragment, ghost last: int)
    returns (chapters: seq<Chapter>, posted: seq<int>)
    requires StopsAt(first, requestUrl, post, last)
    ensures chapters == AllChapters(Read(first, requestUrl, post, last - 1))
    ensures posted == PostedPages(last - 2)
  {
    chapters := [];
    posted := [];
    var document := first;
    var moreChapters := true;
    var nextPage := 2;
    while moreChapters
      invariant 2 <= nextPage <= last
      invariant moreChapters ==> document == FragmentAt(first, requestUrl, post, nextPage)
      invariant moreChapters ==> chapters == AllChapters(Read(first, requestUrl, post, nextPage - 2))
      invariant !moreChapters ==> nextPage == last && chapters == AllChapters(Read(first, requestUrl, post, last - 1))
      invariant posted == PostedPages(nextPage - 2)
      decreases last - nextPage, moreChapters
    {
      ReadSnoc(first, requestUrl, post, nextPage - 2);
      AllChaptersSnoc(Read(first, requestUrl, post, nextPage - 2), document);
      chapters := chapters + document.chapters;
      if IntToString(nextPage) in document.pageLinks {
        PostedPagesSnoc(nextPage - 2);
        posted := posted + [nextPage];
        document := post(requestUrl, PageForm(nextPage));
        nextPage := nextPage + 1;
      } else {
        moreChapters := false;
      }
    }
  }

  /** `fetchChapterList`: GET the request url named after the manga's id,
      then run the paginated parse against the same url. `get` stands for
      the client's GET. */
  method MangaTRFetchChapterList(mangaUrl: string, get: string -> Fragment, post: (string, Form) -> Fragment, ghost last: int)
    returns (requestUrl: string, chapters: seq<Chapter>, posted: seq<int>)
    requires StopsAt(get(MangaTRChapterRequestUrl(mangaUrl)), MangaTRChapterRequestUrl(mangaUrl), post, last)
    ensures requestUrl == MangaTRBase + "/cek/fetch_pages_manga.php?manga_cek=" + MangaTRMangaId(mangaUrl)
    ensures chapters == AllChapters(Read(get(requestUrl), requestUrl, post, last - 1))
    ensures posted == PostedPages(last - 2)
  {
    requestUrl := MangaTRChapterRequestUrl(mangaUrl);
    chapters, posted := MangaTRChapterListParse(get(requestUrl), requestUrl, post, last);
  }


  // ---------------------------------------------------------------------------
  // Comicastle

  const ComicastleBase: string := "https://www.comicastle.org"

  /** `searchMangaRequest`: the query, and the page only after the first. */
  function ComicastleSearchRequest(page: int, query: string): string {
    ComicastleBase + "/comic-dir?q=" + query + if page > 1 then "&c-page=" + IntToString(page) else ""
  }

  /** The first page (or any page number up to 1) sends only the query; a
      later page ends in its `c-page` parameter. */
  lemma ComicastleSearchPageParam(page: int, query: string)
    ensures page <= 1 ==> ComicastleSearchRequest(page, query) == ComicastleBase + "/comic-dir?q=" + query
    ensures page > 1 ==> EndsWith(ComicastleSearchRequest(page, query), "&c-page=" + IntToString(page))
  {
  }

  /** Different pages from 1 on ask for different urls. */
  lemma ComicastleSearchPagesDistinct(p: int, q: int, query: string)
    requires 1 <= p && 1 <= q && p != q
    ensures ComicastleSearchRequest(p, query) != ComicastleSearchRequest(q, query)
  {
    var h := ComicastleBase + "/comic-dir?q=" + query;
    if p > 1 && q > 1 {
      var a := "&c-page=" + IntToString(p);
      var b := "&c-page=" + IntToString(q);
      if h + a == h + b {
        assert (h + a)[|h|..] == a && (h + b)[|h|..] == b;
        assert a[8..] == IntToString(p) && b[8..] == IntToString(q);
        IntToStringInjective(p, q);
      }
    } else if p > 1 {
      assert |ComicastleSearchRequest(p, query)| > |h|;
    } else {
      assert |ComicastleSearchRequest(q, query)| > |h|;
    }
  }

  /** `chapterListParse`: the shared adapter's list in the opposite order. */
  function ComicastleChapterListParse(base: seq<Chapter>): (r: seq<Chapter>)
    ensures |r| == |base|
  {
    Reversed(base)
  }

  /** The k-th chapter is the k-th from the end of the shared adapter's
      list, and reversing again gives that list back. */
  lemma ComicastleChapterOrder(base: seq<Chapter>)
    ensures forall k :: 0 <= k < |base| ==> ComicastleChapterListParse(base)[k] == base[|base| - 1 - k]
    ensures Reversed(ComicastleChapterListParse(base)) == base
  {
    ReversedAt(base);
    ReversedTwice(base);
  }

  /** `pageListParse`: one page per option, added in order with its index. */
  method ComicastlePageListParse(options: seq<Element>) returns (pages: seq<Page>)
    ensures |pages| == |options| && Indexed(pages)
    ensures forall k :: 0 <= k < |pages| ==> pages[k].url == Attr(options[k], "value") && pages[k].imageUrl == None
    ensures pages == OptionPages(options)
  {
    pages := [];
    for i := 0 to |options|
      invariant |pages| == i
      invariant forall k :: 0 <= k < i ==> pages[k] == Page(k, Attr(options[k], "value"), None)
    {
      pages := pages + [Page(i, Attr(options[i], "value"), None)];
    }
  }

  // ---------------------------------------------------------------------------
  // Epik Manga: search by filtering the full series list

  /** Kotlin's `Char.equals(other, ignoreCase = true)`: equal, or equal after
      upper-casing, or equal after upper- then lower-casing. `upper` and
      `lower` stand for the platform's case mappings. */
  predicate SameIgnoringCase(a: char, b: char, upper: char -> char, lower: char -> char) {
    a == b || upper(a) == upper(b) || lower(upper(a)) == lower(upper(b))
  }

  /** `q` matches `s` at `i`, character by character, ignoring case. */
  predicate MatchesAtIgnoringCase(s: string, q: string, i: int, upper: char -> char, lower: char -> char) {
    0 <= i && i + |q| <= |s|
    && forall j :: 0 <= j < |q| ==> SameIgnoringCase(s[i + j], q[j], upper, lower)
  }

  /** Kotlin's `contains(other, ignoreCase = true)`: some position matches. */
  predicate ContainsIgnoringCase(s: string, q: string, upper: char -> char, lower: char -> char) {
    exists i :: 0 <= i <= |s| - |q| && MatchesAtIgnoringCase(s, q, i, upper, lower)
  }

  /** An exact occurrence is also an occurrence ignoring case. */
  lemma ContainsIgnoringCaseOfExact(s: string, q: string, upper: char -> char, lower: char -> char)
    requires Contains(s, q)
    ensures ContainsIgnoringCase(s, q, upper, lower)
  {
    ContainsIff(s, q);
    var i :| OccursAt(s, q, i);
    forall j | 0 <= j < |q| ensures SameIgnoringCase(s[i + j], q[j], upper, lower) {
      assert s[i..i + |q|][j] == s[i + j];
    }
    assert MatchesAtIgnoringCase(s, q, i, upper, lower);
  }

  /** The entry a kept link becomes: its `href` made relative and its text. */
  function EpikMangaEntry(link: TextElement, rel: string -> string): Manga {
    Entry(rel(Attr(link.element, "href")), link.text, None)
  }

  /** `searchMangaParse(response, query)`: the links whose text contains the
      query ignoring case, in order, as entries; there is never a next page. */
  function EpikMangaSearchMangaParse(links: seq<TextElement>, query: string, rel: string -> string,
                                     upper: char -> char, lower: char -> char): (mp: MangasPage)
    ensures !mp.hasNextPage && |mp.mangas| <= |links|
    decreases |links|
  {
    if |links| == 0 then MangasPage([], false)
    else
      var last := links[|links| - 1];
      var init := EpikMangaSearchMangaParse(links[..|links| - 1], query, rel, upper, lower);
      MangasPage(init.mangas + if ContainsIgnoringCase(last.text, query, upper, lower) then [EpikMangaEntry(last, rel)] else [], false)
  }

  /** An entry is a result exactly when a link whose text contains the
      query ignoring case produces it. */
  lemma {:induction false} EpikMangaSearchIff(links: seq<TextElement>, query: string, rel: string -> string,
                                              upper: char -> char, lower: char -> char, m: Manga)
    ensures m in EpikMangaSearchMangaParse(links, query, rel, upper, lower).mangas <==>
      exists k :: 0 <= k < |links| && ContainsIgnoringCase(links[k].text, query, upper, lower) && m == EpikMangaEntry(links[k], rel)
    decreases |links|
  {
    if |links| > 0 {
      var init := links[..|links| - 1];
      EpikMangaSearchIff(init, query, rel, upper, lower, m);
      if m in EpikMangaSearchMangaParse(links, query, rel, upper, lower).mangas {
        if m !in EpikMangaSearchMangaParse(init, query, rel, upper, lower).mangas {
          assert ContainsIgnoringCase(links[|links| - 1].text, query, upper, lower) && m == EpikMangaEntry(links[|links| - 1], rel);
        } else {
          var k :| 0 <= k < |init| && ContainsIgnoringCase(init[k].text, query, upper, lower) && m == EpikMangaEntry(init[k], rel);
          assert links[k] == init[k];
        }
      }
      if exists k :: 0 <= k < |links| && ContainsIgnoringCase(links[k].text, query, upper, lower) && m == EpikMangaEntry(links[k], rel) {
        var k :| 0 <= k < |links| && ContainsIgnoringCase(links[k].text, query, upper, lower) && m == EpikMangaEntry(links[k], rel);
        if k < |init| {
          assert init[k] == links[k];
        }
      }
    }
  }

  lemma EpikMangaSearchSnoc(links: seq<TextElement>, l: TextElement, query: string, rel: string -> string,
                            upper: char -> char, lower: char -> char)
    ensures EpikMangaSearchMangaParse(links + [l], query, rel, upper, lower).mangas
      == EpikMangaSearchMangaParse(links, query, rel, upper, lower).mangas
         + if ContainsIgnoringCase(l.text, query, upper, lower) then [EpikMangaEntry(l, rel)] else []
  {
    assert (links + [l])[..|links|] == links;
  }

  /** The filter keeps document order: the results for two runs of links
      are those of the first run followed by those of the second. */
  lemma {:induction false} EpikMangaSearchAppend(a: seq<TextElement>, b: seq<TextElement>, query: string,
                                                 rel: string -> string, upper: char -> char, lower: char -> char)
    ensures EpikMangaSearchMangaParse(a + b, query, rel, upper, lower).mangas
      == EpikMangaSearchMangaParse(a, query, rel, upper, lower).mangas + EpikMangaSearchMangaParse(b, query, rel, upper, lower).mangas
    decreases |b|
  {
    if |b| == 0 {
      assert a + b == a;
    } else {
      var init, last := b[..|b| - 1], b[|b| - 1];
      var one := if ContainsIgnoringCase(last.text, query, upper, lower) then [EpikMangaEntry(last, rel)] else [];
      calc {
        EpikMangaSearchMangaParse(a + b, query, rel, upper, lower).mangas;
        { assert a + b == (a + init) + [last]; }
        EpikMangaSearchMangaParse((a + init) + [last], query, rel, upper, lower).mangas;
        { EpikMangaSearchSnoc(a + init, last, query, rel, upper, lower); }
        EpikMangaSearchMangaParse(a + init, query, rel, upper, lower).mangas + one;
        { EpikMangaSearchAppend(a, init, query, rel, upper, lower); }
        EpikMangaSearchMangaParse(a, query, rel, upper, lower).mangas
          + (EpikMangaSearchMangaParse(init, query, rel, upper, lower).mangas + one);
        { assert b == init + [last]; EpikMangaSearchSnoc(init, last, query, rel, upper, lower); }
        EpikMangaSearchMangaParse(a, query, rel, upper, lower).mangas + EpikMangaSearchMangaParse(b, query, rel, upper, lower).mangas;
      }
    }
  }

  /** The empty query keeps every link, in order. */
  lemma {:induction false} EpikMangaEmptyQuery(links: seq<TextElement>, rel: string -> string, upper: char -> char, lower: char -> char)
    ensures EpikMangaSearchMangaParse(links, "", rel, upper, lower).mangas
      == seq(|links|, k requires 0 <= k < |links| => EpikMangaEntry(links[k], rel))
    decreases |links|
  {
    if |links| > 0 {
      var init := links[..|links| - 1];
      EpikMangaEmptyQuery(init, rel, upper, lower);
      assert MatchesAtIgnoringCase(links[|links| - 1].text, "", 0, upper, lower);
    }
  }
}
