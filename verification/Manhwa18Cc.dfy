/** The Manhwa18.cc adapter (a Madara site): its listing requests and its
    page list, one page per reader image. The Madara base class is not part
    of this model. */
module Manhwa18Cc {
  import opened Text
  import opened Source

  const BaseUrl: string := "https://manhwa18.cc"

  /** `popularMangaRequest`: the webtoon listing page ordered by trend. */
  function PopularMangaRequest(page: int): string {
    BaseUrl + "/webtoons/" + IntToString(page) + "?orderby=trending"
  }

  /** `latestUpdatesRequest`: the webtoon listing page ordered by update. */
  function LatestUpdatesRequest(page: int): string {
    BaseUrl + "/webtoons/" + IntToString(page) + "?orderby=latest"
  }

  /** The page number sits in the path and the order in the query: the two
      listings never share a url, and different pages of one listing are
      different urls. */
  lemma ListingRequestsDistinct(p: int, q: int)
    ensures EndsWith(PopularMangaRequest(p), "?orderby=trending")
    ensures EndsWith(LatestUpdatesRequest(p), "?orderby=latest")
    ensures PopularMangaRequest(p) != LatestUpdatesRequest(q)
    ensures p != q ==> PopularMangaRequest(p) != PopularMangaRequest(q)
    ensures p != q ==> LatestUpdatesRequest(p) != LatestUpdatesRequest(q)
  {
    var a := PopularMangaRequest(p);
    var b := LatestUpdatesRequest(q);
    assert a[|a| - 1] == 'g' && b[|b| - 1] == 't';
    if p != q {
      IntToStringDistinct(p, q);
      SameHeadTail(BaseUrl + "/webtoons/", IntToString(p), IntToString(q), "?orderby=trending");
      SameHeadTail(BaseUrl + "/webtoons/", IntToString(p), IntToString(q), "?orderby=latest");
    }
  }

  /** `pageListParse`: one page per `div.read-content img`, numbered from 0
      in document order, each with the document's location as its url and
      the image's resolved `data-src`, or `src` when it has no `data-src`. */
  function PageListParse(location: string, imgs: seq<Element>, abs: string -> string): (pages: seq<Page>)
    ensures |pages| == |imgs| && Indexed(pages)
    ensures forall k :: 0 <= k < |pages| ==> pages[k].url == location
    ensures forall k :: 0 <= k < |pages| ==>
      && ("data-src" in imgs[k].attrs ==> pages[k].imageUrl == Some(abs(imgs[k].attrs["data-src"])))
      && ("data-src" !in imgs[k].attrs && "src" in imgs[k].attrs ==> pages[k].imageUrl == Some(abs(imgs[k].attrs["src"])))
      && ("data-src" !in imgs[k].attrs && "src" !in imgs[k].attrs ==> pages[k].imageUrl == Some(""))
  {
    seq(|imgs|, k requires 0 <= k < |imgs| => Page(k, location, Some(LazyImageUrl(imgs[k], abs))))
  }
}
