/** The Team X adapter: paged listing urls, a latest/search feed that hides
    titles already shown in the current browsing session (a set of seen
    titles, cleared on page 1), a chapter list that follows "»" links page
    after page, and the lazy-image rule for thumbnails and pages. */
module TeamX {
  import opened Text
  import opened Source

  const BaseUrl: string := "https://team1x1.com"
  const LatestPath: string := "/احدث-الفصول/"

  // ---------------------------------------------------------------------------
  // Request urls

  /** The `page/N/` segment, present only after the first page. */
  function PageSegment(page: int): string {
    if page > 1 then "page/" + IntToString(page) + "/" else ""
  }

  function PopularUrl(page: int): string {
    BaseUrl + "/manga/" + PageSegment(page)
  }

  function LatestUrl(page: int): string {
    BaseUrl + LatestPath + PageSegment(page)
  }

  /** The query goes into `?s=` as given. */
  function SearchUrl(page: int, query: string): string {
    BaseUrl + "/" + PageSegment(page) + "?s=" + query
  }

  /** Page 1 (and anything below) has no page segment; a later page `N` has
      exactly `page/N/` after the listing's path. */
  lemma PageSegmentOnlyAfterFirst(page: int)
    ensures page <= 1 ==> PopularUrl(page) == BaseUrl + "/manga/" && LatestUrl(page) == BaseUrl + LatestPath
    ensures page <= 1 ==> forall q :: SearchUrl(page, q) == BaseUrl + "/?s=" + q
    ensures page > 1 ==> PopularUrl(page) == BaseUrl + "/manga/page/" + IntToString(page) + "/"
  {
  }

  /** Different pages from 1 on ask for different urls, in every listing. */
  lemma ListingUrlsDistinct(p: int, q: int, query: string)
    requires 1 <= p && 1 <= q && p != q
    ensures PopularUrl(p) != PopularUrl(q)
    ensures LatestUrl(p) != LatestUrl(q)
    ensures SearchUrl(p, query) != SearchUrl(q, query)
  {
    if p > 1 && q > 1 {
      SegmentsDistinct(p, q);
    } else {
      assert PageSegment(p) != "" || PageSegment(q) != "";
    }
    SameHeadTail(BaseUrl + "/manga/", PageSegment(p), PageSegment(q), "");
    SameHeadTail(BaseUrl + LatestPath, PageSegment(p), PageSegment(q), "");
    SameHeadTail(BaseUrl + "/", PageSegment(p), PageSegment(q), "?s=" + query);
    Regroup3(BaseUrl + "/" + PageSegment(p), "?s=", query);
    Regroup3(BaseUrl + "/" + PageSegment(q), "?s=", query);
    assert PopularUrl(p) == BaseUrl + "/manga/" + PageSegment(p) + "";
    assert PopularUrl(q) == BaseUrl + "/manga/" + PageSegment(q) + "";
    assert LatestUrl(p) == BaseUrl + LatestPath + PageSegment(p) + "";
    assert LatestUrl(q) == BaseUrl + LatestPath + PageSegment(q) + "";
  }

  lemma SegmentsDistinct(p: int, q: int)
    requires 1 < p && 1 < q && p != q
    ensures PageSegment(p) != PageSegment(q)
  {
    var a, b := IntToString(p), IntToString(q);
    if PageSegment(p) == PageSegment(q) {
      assert "page/" + a + "/" == "page/" + b + "/";
      assert |a| == |b|;
      assert a == ("page/" + a + "/")[5..5 + |a|];
      assert b == ("page/" + b + "/")[5..5 + |b|];
      IntToStringInjective(p, q);
    }
  }

  // ---------------------------------------------------------------------------
  // Listing entries

  /** One `div.last-post-manga` tile: the `h3 a` text, the first link's href
      and the tile's images. */
  datatype Tile = Tile(title: string, href: string, imgs: seq<Element>)

  /** A listing document: its tiles in document order and whether the
      `i.fa-chevron-left` next marker is present. */
  datatype ListingDoc = ListingDoc(tiles: seq<Tile>, hasNext: bool)

  /** `popularMangaFromElement`: the title, the link made relative by `rel`,
      and the thumbnail by the lazy-image rule over the tile's images. */
  function MangaFromTile(tile: Tile, rel: string -> string, abs: string -> string): (m: Manga)
    ensures m.title == tile.title && m.url == rel(tile.href)
    ensures AnyHasAttr(tile.imgs, "data-src") ==> m.thumbnailUrl == Some(FirstAbsAttr(tile.imgs, "data-src", abs))
    ensures !AnyHasAttr(tile.imgs, "data-src") ==> m.thumbnailUrl == Some(FirstAbsAttr(tile.imgs, "src", abs))
  {
    Entry(rel(tile.href), tile.title, Some(LazyImagesUrl(tile.imgs, abs)))
  }

  function Entries(ts: seq<Tile>, rel: string -> string, abs: string -> string): seq<Manga> {
    seq(|ts|, k requires 0 <= k < |ts| => MangaFromTile(ts[k], rel, abs))
  }

  lemma EntriesSnoc(ts: seq<Tile>, t: Tile, rel: string -> string, abs: string -> string)
    ensures Entries(ts + [t], rel, abs) == Entries(ts, rel, abs) + [MangaFromTile(t, rel, abs)]
  {
  }

  /** `distinctBy { title }` followed by dropping the titles in `seen`: the
      tiles whose title is not in `seen`, each title at its first occurrence. */
  function FirstUnseen(ts: seq<Tile>, seen: set<string>): seq<Tile>
    decreases |ts|
  {
    if |ts| == 0 then []
    else if ts[0].title in seen then FirstUnseen(ts[1..], seen)
    else [ts[0]] + FirstUnseen(ts[1..], seen + {ts[0].title})
  }

  /** Kotlin's `filter { title !in seen }`. */
  function Unseen(ts: seq<Tile>, seen: set<string>): seq<Tile>
    decreases |ts|
  {
    if |ts| == 0 then []
    else (if ts[0].title in seen then [] else [ts[0]]) + Unseen(ts[1..], seen)
  }

  /** The titles of some tiles, as a set. */
  function TitlesOf(ts: seq<Tile>): set<string>
    decreases |ts|
  {
    if |ts| == 0 then {} else TitlesOf(ts[..|ts| - 1]) + {ts[|ts| - 1].title}
  }

  lemma SetRegroup(a: set<string>, b: set<string>, c: set<string>)
    ensures a + b + c == a + (b + c)
  {
  }

  lemma TitlesOfSnoc(ts: seq<Tile>, i: nat)
    requires i < |ts|
    ensures TitlesOf(ts[..i + 1]) == TitlesOf(ts[..i]) + {ts[i].title}
  {
    assert ts[..i + 1][..i] == ts[..i];
  }

  lemma {:induction false} TitlesOfIff(ts: seq<Tile>, x: string)
    ensures x in TitlesOf(ts) <==> exists k :: 0 <= k < |ts| && ts[k].title == x
    decreases |ts|
  {
    if |ts| > 0 {
      var init := ts[..|ts| - 1];
      TitlesOfIff(init, x);
      if x in TitlesOf(init) {
        var k :| 0 <= k < |init| && init[k].title == x;
        assert ts[k].title == x;
      }
      if exists k :: 0 <= k < |ts| && ts[k].title == x {
        var k :| 0 <= k < |ts| && ts[k].title == x;
        if k < |ts| - 1 {
          assert init[k].title == x;
        }
      }
    }
  }

  /** The shown titles are not among those seen before. */
  lemma {:induction false} FirstUnseenFresh(ts: seq<Tile>, seen: set<string>)
    ensures forall j :: 0 <= j < |FirstUnseen(ts, seen)| ==> FirstUnseen(ts, seen)[j].title !in seen
    decreases |ts|
  {
    if |ts| > 0 {
      var t := ts[0];
      if t.title in seen {
        FirstUnseenFresh(ts[1..], seen);
      } else {
        var rest := FirstUnseen(ts[1..], seen + {t.title});
        FirstUnseenFresh(ts[1..], seen + {t.title});
        assert FirstUnseen(ts, seen) == [t] + rest;
      }
    }
  }

  /** The shown titles are pairwise distinct. */
  lemma {:induction false} FirstUnseenDistinct(ts: seq<Tile>, seen: set<string>)
    ensures forall i, j :: 0 <= i < j < |FirstUnseen(ts, seen)| ==>
      FirstUnseen(ts, seen)[i].title != FirstUnseen(ts, seen)[j].title
    decreases |ts|
  {
    if |ts| > 0 {
      var t := ts[0];
      if t.title in seen {
        FirstUnseenDistinct(ts[1..], seen);
      } else {
        var r := FirstUnseen(ts, seen);
        var rest := FirstUnseen(ts[1..], seen + {t.title});
        FirstUnseenDistinct(ts[1..], seen + {t.title});
        FirstUnseenFresh(ts[1..], seen + {t.title});
        assert r == [t] + rest;
        forall i, j | 0 <= i < j < |r| ensures r[i].title != r[j].title {
          assert r[j] == rest[j - 1];
          if i > 0 {
            assert r[i] == rest[i - 1];
          }
        }
      }
    }
  }

  /** Every title of the document that was not seen before is shown. */
  lemma {:induction false} FirstUnseenComplete(ts: seq<Tile>, seen: set<string>)
    ensures forall k :: 0 <= k < |ts| && ts[k].title !in seen ==> ts[k].title in TitlesOf(FirstUnseen(ts, seen))
    decreases |ts|
  {
    if |ts| > 0 {
      var t := ts[0];
      var r := FirstUnseen(ts, seen);
      var seen' := if t.title in seen then seen else seen + {t.title};
      var rest := FirstUnseen(ts[1..], seen');
      FirstUnseenComplete(ts[1..], seen');
      if t.title in seen {
        assert r == rest;
      } else {
        assert r == [t] + rest;
      }
      forall k | 0 <= k < |ts| && ts[k].title !in seen ensures ts[k].title in TitlesOf(r) {
        var x := ts[k].title;
        TitlesOfIff(r, x);
        if x == t.title {
          assert r[0] == t;
        } else {
          assert ts[1..][k - 1] == ts[k];
          TitlesOfIff(rest, x);
          var j :| 0 <= j < |rest| && rest[j].title == x;
          if t.title in seen {
            assert r[j] == rest[j];
          } else {
            assert r[j + 1] == rest[j];
          }
        }
      }
    }
  }

  /** Each shown tile is the first tile of the document with its title. */
  lemma {:induction false} FirstUnseenFirst(ts: seq<Tile>, seen: set<string>)
    ensures forall j :: 0 <= j < |FirstUnseen(ts, seen)| ==>
      exists i :: 0 <= i < |ts| && FirstUnseen(ts, seen)[j] == ts[i]
        && forall h :: 0 <= h < i ==> ts[h].title != ts[i].title
    decreases |ts|
  {
    if |ts| > 0 {
      var t := ts[0];
      var r := FirstUnseen(ts, seen);
      var seen' := if t.title in seen then seen else seen + {t.title};
      var rest := FirstUnseen(ts[1..], seen');
      FirstUnseenFirst(ts[1..], seen');
      FirstUnseenFresh(ts[1..], seen');
      if t.title in seen {
        assert r == rest;
      } else {
        assert r == [t] + rest;
      }
      forall j | 0 <= j < |r|
        ensures exists i :: 0 <= i < |ts| && r[j] == ts[i] && forall h :: 0 <= h < i ==> ts[h].title != ts[i].title
      {
        if t.title !in seen && j == 0 {
          assert r[0] == ts[0];
        } else {
          var j' := if t.title in seen then j else j - 1;
          assert r[j] == rest[j'];
          assert rest[j'].title !in seen';
          var i :| 0 <= i < |ts[1..]| && rest[j'] == ts[1..][i]
            && forall h :: 0 <= h < i ==> ts[1..][h].title != ts[1..][i].title;
          assert r[j] == ts[i + 1];
          forall h | 0 <= h < i + 1 ensures ts[h].title != ts[i + 1].title {
            if h > 0 {
              assert ts[1..][h - 1] == ts[h];
            } else if t.title in seen {
              assert ts[i + 1].title !in seen;
            }
          }
        }
      }
    } else {
      assert FirstUnseen(ts, seen) == [];
    }
  }

  /** Filtering an already distinct list by a set is the same as starting
      the distinct pass with that set: `distinctBy` then `filter` hides
      exactly the titles seen before. */
  lemma {:induction false} UnseenOfDistinct(ts: seq<Tile>, s: set<string>, a: set<string>)
    ensures Unseen(FirstUnseen(ts, s), a) == FirstUnseen(ts, s + a)
    decreases |ts|
  {
    if |ts| > 0 {
      var t := ts[0];
      if t.title in s {
        UnseenOfDistinct(ts[1..], s, a);
      } else {
        UnseenOfDistinct(ts[1..], s + {t.title}, a);
        var rest := FirstUnseen(ts[1..], s + {t.title});
        assert FirstUnseen(ts, s) == [t] + rest;
        assert ([t] + rest)[1..] == rest;
        if t.title in a {
          assert s + {t.title} + a == s + a;
        } else {
          assert s + {t.title} + a == s + a + {t.title};
        }
      }
    }
  }

  /** With nothing seen the filter keeps everything, so skipping it for an
      empty set changes nothing. */
  lemma {:induction false} UnseenEmpty(ts: seq<Tile>)
    ensures Unseen(ts, {}) == ts
    decreases |ts|
  {
    if |ts| > 0 {
      UnseenEmpty(ts[1..]);
      assert ts == [ts[0]] + ts[1..];
    }
  }

  /** Two parses in the same session never show a title twice: what the
      second shows is disjoint from what the first showed. */
  lemma SuccessiveParsesDisjoint(d1: seq<Tile>, d2: seq<Tile>, seen: set<string>)
    ensures TitlesOf(FirstUnseen(d1, seen)) !! TitlesOf(FirstUnseen(d2, seen + TitlesOf(FirstUnseen(d1, seen))))
  {
    var shown := TitlesOf(FirstUnseen(d1, seen));
    var r2 := FirstUnseen(d2, seen + shown);
    FirstUnseenFresh(d2, seen + shown);
    forall x | x in TitlesOf(r2) ensures x !in shown {
      TitlesOfIff(r2, x);
    }
  }

  /** The Team X source object and its `titlesAdded` set, shared by the
      latest and the search feeds. */
  class TeamXSource {
    var titlesAdded: set<string>

    constructor ()
      ensures titlesAdded == {}
    {
      titlesAdded := {};
    }

    /** `latestUpdatesRequest`: page 1 starts a new session. */
    method LatestUpdatesRequest(page: int) returns (url: string)
      modifies this
      ensures url == LatestUrl(page)
      ensures titlesAdded == if page == 1 then {} else old(titlesAdded)
    {
      if page == 1 {
        titlesAdded := {};
      }
      url := LatestUrl(page);
    }

    /** `searchMangaRequest`: page 1 starts a new session. */
    method SearchMangaRequest(page: int, query: string) returns (url: string)
      modifies this
      ensures url == SearchUrl(page, query)
      ensures titlesAdded == if page == 1 then {} else old(titlesAdded)
    {
      if page == 1 {
        titlesAdded := {};
      }
      url := SearchUrl(page, query);
    }

    /** `latestUpdatesParse`: the document's tiles, each title once and only
        if not shown before in this session; the shown titles join the set.
        Whether a next page exists is the next marker alone. */
    method LatestUpdatesParse(doc: ListingDoc, rel: string -> string, abs: string -> string)
      returns (mp: MangasPage)
      modifies this
      ensures mp.mangas == Entries(FirstUnseen(doc.tiles, old(titlesAdded)), rel, abs)
      ensures mp.hasNextPage == doc.hasNext
      ensures titlesAdded == old(titlesAdded) + TitlesOf(FirstUnseen(doc.tiles, old(titlesAdded)))
    {
      var distinct := FirstUnseen(doc.tiles, {});
      UnseenOfDistinct(doc.tiles, {}, titlesAdded);
      assert {} + titlesAdded == titlesAdded;
      var kept := if |titlesAdded| > 0 then Unseen(distinct, titlesAdded) else distinct;
      assert kept == FirstUnseen(doc.tiles, titlesAdded);
      var mangas := AddShown(kept, rel, abs);
      mp := MangasPage(mangas, doc.hasNext);
    }

    /** The `map` step of the parse: each kept tile becomes an entry and its
        title joins the set. */
    method AddShown(kept: seq<Tile>, rel: string -> string, abs: string -> string) returns (mangas: seq<Manga>)
      modifies this
      ensures mangas == Entries(kept, rel, abs)
      ensures titlesAdded == old(titlesAdded) + TitlesOf(kept)
    {
      mangas := [];
      ghost var start := titlesAdded;
      var i := 0;
      while i < |kept|
        invariant 0 <= i <= |kept|
        invariant titlesAdded == start + TitlesOf(kept[..i])
        invariant mangas == Entries(kept[..i], rel, abs)
      {
        TitlesOfSnoc(kept, i);
        EntriesSnoc(kept[..i], kept[i], rel, abs);
        assert kept[..i + 1] == kept[..i] + [kept[i]];
        SetRegroup(start, TitlesOf(kept[..i]), {kept[i].title});
        titlesAdded := titlesAdded + {kept[i].title};
        mangas := mangas + [MangaFromTile(kept[i], rel, abs)];
        i := i + 1;
      }
      assert kept[..i] == kept;
    }

    /** `searchMangaParse` is the latest-feed parse. */
    method SearchMangaParse(doc: ListingDoc, rel: string -> string, abs: string -> string)
      returns (mp: MangasPage)
      modifies this
      ensures mp.mangas == Entries(FirstUnseen(doc.tiles, old(titlesAdded)), rel, abs)
      ensures mp.hasNextPage == doc.hasNext
      ensures titlesAdded == old(titlesAdded) + TitlesOf(FirstUnseen(doc.tiles, old(titlesAdded)))
    {
      mp := LatestUpdatesParse(doc, rel, abs);
    }
  }

  // ---------------------------------------------------------------------------
  // Chapters

  /** One chapter link: its text and href. */
  datatype ChapterLink = ChapterLink(text: string, href: string)

  /** A chapter-list document: its chapter links and the elements matched by
      the `»` next-link selector. */
  datatype ChapterDoc = ChapterDoc(links: seq<ChapterLink>, next: seq<Element>)

  /** `chapterFromElement`: the link text as name, the href made relative. */
  function ChapterFromLink(l: ChapterLink, rel: string -> string): Chapter {
    Chapter(rel(l.href), l.text, 0)
  }

  function PageChapters(doc: ChapterDoc, rel: string -> string): (cs: seq<Chapter>)
    ensures |cs| == |doc.links|
  {
    seq(|doc.links|, k requires 0 <= k < |doc.links| => ChapterFromLink(doc.links[k], rel))
  }

  predicate HasNext(doc: ChapterDoc) {
    |doc.next| > 0
  }

  /** The next page's address: the `href` of the selection. */
  function NextUrl(doc: ChapterDoc): string {
    FirstAttr(doc.next, "href")
  }

  /** The loop goes on after `doc`: it had chapters and a next link. */
  predicate Continues(doc: ChapterDoc) {
    |doc.links| > 0 && HasNext(doc)
  }

  /** The site stops the chain within `fuel` further fetches. */
  ghost predicate Stops(doc: ChapterDoc, fetch: string -> ChapterDoc, fuel: nat)
    decreases fuel
  {
    !Continues(doc) || (fuel > 0 && Stops(fetch(NextUrl(doc)), fetch, fuel - 1))
  }

  /** The documents the loop reads, from `doc` on. */
  ghost function Visited(doc: ChapterDoc, fetch: string -> ChapterDoc, fuel: nat): seq<ChapterDoc>
    requires Stops(doc, fetch, fuel)
    decreases fuel
  {
    [doc] + if Continues(doc) then Visited(fetch(NextUrl(doc)), fetch, fuel - 1) else []
  }

  /** The chapters of some documents, in order. */
  function Flatten(docs: seq<ChapterDoc>, rel: string -> string): seq<Chapter>
    decreases |docs|
  {
    if |docs| == 0 then [] else Flatten(docs[..|docs| - 1], rel) + PageChapters(docs[|docs| - 1], rel)
  }

  function NextUrls(docs: seq<ChapterDoc>): (urls: seq<string>)
    ensures |urls| == |docs| && forall k :: 0 <= k < |docs| ==> urls[k] == NextUrl(docs[k])
  {
    seq(|docs|, k requires 0 <= k < |docs| => NextUrl(docs[k]))
  }

  /** The visited documents form the chain the site links: each one but the
      last had chapters and a next link and the following one is what that
      link returns; the last one has no chapters or no next link. */
  lemma {:induction false} VisitedChain(doc: ChapterDoc, fetch: string -> ChapterDoc, fuel: nat)
    requires Stops(doc, fetch, fuel)
    ensures |Visited(doc, fetch, fuel)| >= 1 && Visited(doc, fetch, fuel)[0] == doc
    ensures forall k :: 0 <= k < |Visited(doc, fetch, fuel)| - 1 ==>
      Continues(Visited(doc, fetch, fuel)[k])
      && Visited(doc, fetch, fuel)[k + 1] == fetch(NextUrl(Visited(doc, fetch, fuel)[k]))
    ensures !Continues(Visited(doc, fetch, fuel)[|Visited(doc, fetch, fuel)| - 1])
    decreases fuel
  {
    var v := Visited(doc, fetch, fuel);
    if Continues(doc) {
      var nxt := fetch(NextUrl(doc));
      var w := Visited(nxt, fetch, fuel - 1);
      VisitedChain(nxt, fetch, fuel - 1);
      assert v == [doc] + w;
      forall k | 0 <= k < |v| - 1
        ensures Continues(v[k]) && v[k + 1] == fetch(NextUrl(v[k]))
      {
        if k > 0 {
          assert v[k] == w[k - 1] && v[k + 1] == w[k];
        }
      }
      assert v[|v| - 1] == w[|w| - 1];
    }
  }

  /** How much fuel the proof is given does not change what is visited. */
  lemma {:induction false} VisitedFuel(doc: ChapterDoc, fetch: string -> ChapterDoc, m: nat, n: nat)
    requires Stops(doc, fetch, m) && m <= n
    ensures Stops(doc, fetch, n) && Visited(doc, fetch, m) == Visited(doc, fetch, n)
    decreases m
  {
    if Continues(doc) {
      VisitedFuel(fetch(NextUrl(doc)), fetch, m - 1, n - 1);
    }
  }

  /** A document without chapters ends the list at once, even with a next
      link, and adds nothing. */
  lemma EmptyPageEnds(doc: ChapterDoc, past: seq<ChapterDoc>, fetch: string -> ChapterDoc, fuel: nat, rel: string -> string)
    requires |doc.links| == 0
    ensures Stops(doc, fetch, fuel) && Visited(doc, fetch, fuel) == [doc]
    ensures Flatten(past + [doc], rel) == Flatten(past, rel)
  {
    assert (past + [doc])[..|past|] == past;
  }

  /** A document the loop goes on from is followed by the one its link
      returns. */
  lemma VisitedStep(doc: ChapterDoc, fetch: string -> ChapterDoc, fuel: nat)
    requires Stops(doc, fetch, fuel) && Continues(doc)
    ensures fuel > 0 && Stops(fetch(NextUrl(doc)), fetch, fuel - 1)
    ensures Visited(doc, fetch, fuel) == [doc] + Visited(fetch(NextUrl(doc)), fetch, fuel - 1)
  {
  }

  /** The loop's bookkeeping when it follows a next link. */
  lemma ChainAdvance(first: ChapterDoc, fetch: string -> ChapterDoc, bound: nat,
                     past: seq<ChapterDoc>, doc: ChapterDoc, n: nat)
    requires Stops(first, fetch, bound) && Stops(doc, fetch, n) && Continues(doc)
    requires Visited(first, fetch, bound) == past + Visited(doc, fetch, n)
    ensures n > 0 && Stops(fetch(NextUrl(doc)), fetch, n - 1)
    ensures Visited(first, fetch, bound) == (past + [doc]) + Visited(fetch(NextUrl(doc)), fetch, n - 1)
  {
    VisitedStep(doc, fetch, n);
    var rest := Visited(fetch(NextUrl(doc)), fetch, n - 1);
    assert past + ([doc] + rest) == past + [doc] + rest;
  }

  /** The loop's bookkeeping when it stops at `doc`. */
  lemma ChainEnd(first: ChapterDoc, fetch: string -> ChapterDoc, bound: nat,
                 past: seq<ChapterDoc>, doc: ChapterDoc, n: nat, rel: string -> string)
    requires Stops(first, fetch, bound) && Stops(doc, fetch, n) && !Continues(doc)
    requires Visited(first, fetch, bound) == past + Visited(doc, fetch, n)
    ensures Visited(first, fetch, bound) == past + [doc]
    ensures Visited(first, fetch, bound)[..|Visited(first, fetch, bound)| - 1] == past
    ensures Flatten(Visited(first, fetch, bound), rel) == Flatten(past, rel) + PageChapters(doc, rel)
  {
    assert Visited(doc, fetch, n) == [doc];
    assert (past + [doc])[..|past|] == past;
    FlattenSnoc(past, doc, rel);
  }

  lemma NextUrlsSnoc(docs: seq<ChapterDoc>, doc: ChapterDoc)
    ensures NextUrls(docs + [doc]) == NextUrls(docs) + [NextUrl(doc)]
  {
  }

  lemma FlattenSnoc(docs: seq<ChapterDoc>, doc: ChapterDoc, rel: string -> string)
    ensures Flatten(docs + [doc], rel) == Flatten(docs, rel) + PageChapters(doc, rel)
  {
    assert (docs + [doc])[..|docs|] == docs;
  }

  /** `chapterListParse`: the chapters of the first document, then of each
      next page while the current page had chapters and a next link.
      `fetch` stands for the GET of a next-page url; `bound` is a proof-only
      number of fetches within which the site ends the chain. */
  method ChapterListParse(first: ChapterDoc, fetch: string -> ChapterDoc, rel: string -> string, ghost bound: nat)
    returns (all: seq<Chapter>, requests: seq<string>)
    requires Stops(first, fetch, bound)
    ensures all == Flatten(Visited(first, fetch, bound), rel)
    ensures requests == NextUrls(Visited(first, fetch, bound)[..|Visited(first, fetch, bound)| - 1])
  {
    all := [];
    requests := [];
    var doc := first;
    ghost var past: seq<ChapterDoc> := [];
    ghost var n := bound;
    while true
      invariant Stops(doc, fetch, n)
      invariant Visited(first, fetch, bound) == past + Visited(doc, fetch, n)
      invariant all == Flatten(past, rel)
      invariant requests == NextUrls(past)
      decreases n
    {
      var pageChapters := PageChapters(doc, rel);
      if |pageChapters| == 0 {
        ChainEnd(first, fetch, bound, past, doc, n, rel);
        break;
      }
      all := all + pageChapters;
      if !HasNext(doc) {
        ChainEnd(first, fetch, bound, past, doc, n, rel);
        break;
      }
      var nextUrl := NextUrl(doc);
      requests := requests + [nextUrl];
      ChainAdvance(first, fetch, bound, past, doc, n);
      FlattenSnoc(past, doc, rel);
      NextUrlsSnoc(past, doc);
      past := past + [doc];
      doc := fetch(nextUrl);
      n := n - 1;
    }
  }

  // ---------------------------------------------------------------------------
  // Pages

  /** `pageListParse`: one page per `embed`, numbered from 0, with an empty
      page url and the image by the lazy-image rule. */
  function PageListParse(embeds: seq<Element>, abs: string -> string): (pages: seq<Page>)
    ensures |pages| == |embeds| && Indexed(pages)
    ensures forall k :: 0 <= k < |embeds| ==> pages[k].url == "" && pages[k].imageUrl == Some(LazyImageUrl(embeds[k], abs))
  {
    seq(|embeds|, k requires 0 <= k < |embeds| => Page(k, "", Some(LazyImageUrl(embeds[k], abs))))
  }
}
