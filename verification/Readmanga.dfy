/** The Readmanga adapter (readmanga.live): listing and search requests,
    status detection, chapter-name cleaning, chapter numbering and the
    decoding of the page list from the inline `rm_h.init( [...] );` script. */
module Readmanga {
  import opened Text
  import opened Source

  const BaseUrl: string := "https://readmanga.live"

  /** Entries per listing page. */
  const PageSize: int := 70

  // ---------------------------------------------------------------------------
  // Listing requests

  /** The `offset` of a listing page, `70 * (page - 1)` in Kotlin `Int` arithmetic. */
  function ListOffset(page: Int32): Int32 {
    WrapInt32(PageSize * WrapInt32(page - 1))
  }

  function PopularMangaRequest(page: Int32): string {
    BaseUrl + "/list?sortType=rate&offset=" + IntToString(ListOffset(page)) + "&max=70"
  }

  function LatestUpdatesRequest(page: Int32): string {
    BaseUrl + "/list?sortType=updated&offset=" + IntToString(ListOffset(page)) + "&max=70"
  }

  /** The last page whose offset does not overflow a Kotlin `Int`. */
  const LastPage: int := 30678338

  /** Page `p` starts at entry `70 * (p - 1)` and the next page exactly 70
      entries later, as long as the offset fits in an `Int`. */
  lemma ListOffsetPaging(page: Int32)
    requires 1 <= page <= LastPage
    ensures ListOffset(page) == PageSize * (page - 1)
    ensures page < LastPage ==> ListOffset(page + 1) == ListOffset(page) + PageSize
  {
  }

  /** Removing a common prefix and suffix from equal strings leaves equal middles. */
  lemma MiddleEqual(pre: string, x: string, y: string, post: string)
    requires pre + x + post == pre + y + post
    ensures x == y
  {
    var s := pre + x + post;
    assert |x| == |y|;
    assert x == s[|pre|..|pre| + |x|];
    assert y == (pre + y + post)[|pre|..|pre| + |y|];
  }

  /** Different positive pages are different requests, for the popular and
      for the latest listing, wrap-around of the offset included. */
  lemma ListingRequestsDistinct(p: Int32, q: Int32)
    requires 1 <= p && 1 <= q
    ensures PopularMangaRequest(p) == PopularMangaRequest(q) ==> p == q
    ensures LatestUpdatesRequest(p) == LatestUpdatesRequest(q) ==> p == q
  {
    if PopularMangaRequest(p) == PopularMangaRequest(q) {
      MiddleEqual(BaseUrl + "/list?sortType=rate&offset=", IntToString(ListOffset(p)), IntToString(ListOffset(q)), "&max=70");
      IntToStringInjective(ListOffset(p), ListOffset(q));
      ListOffsetInjective(p, q);
    }
    if LatestUpdatesRequest(p) == LatestUpdatesRequest(q) {
      MiddleEqual(BaseUrl + "/list?sortType=updated&offset=", IntToString(ListOffset(p)), IntToString(ListOffset(q)), "&max=70");
      IntToStringInjective(ListOffset(p), ListOffset(q));
      ListOffsetInjective(p, q);
    }
  }

  /** Different positive pages have different offsets, even where
      `70 * (page - 1)` wraps: 70 is twice an odd number, so the offsets of
      pages less than 2^31 apart cannot agree modulo 2^32. */
  lemma ListOffsetInjective(p: Int32, q: Int32)
    requires 1 <= p && 1 <= q && ListOffset(p) == ListOffset(q)
    ensures p == q
  {
    var a, b := p - 1, q - 1;
    var r := ListOffset(p);
    assert r == WrapInt32(PageSize * a) && r == WrapInt32(PageSize * b);
    var k1 := (r - 70 * a) / 0x1_0000_0000;
    var k2 := (r - 70 * b) / 0x1_0000_0000;
    assert r - 70 * a == k1 * 0x1_0000_0000;
    assert r - 70 * b == k2 * 0x1_0000_0000;
    assert 35 * (a - b) == (k2 - k1) * 0x8000_0000;
    OddFactor(a - b, k2 - k1);
  }

  /** 35 has the inverse 184070027 modulo 2^31, so a multiple of 2^31 that
      is 35 times `d` makes `d` a multiple of 2^31. */
  lemma OddFactor(d: int, m: int)
    requires 35 * d == m * 0x8000_0000
    ensures d == (184070027 * m - 3 * d) * 0x8000_0000
  {
    assert 35 * 184070027 == 1 + 3 * 0x8000_0000;
    calc {
      d;
      (35 * 184070027 - 3 * 0x8000_0000) * d;
      184070027 * (35 * d) - 3 * 0x8000_0000 * d;
      184070027 * (m * 0x8000_0000) - 3 * 0x8000_0000 * d;
      (184070027 * m - 3 * d) * 0x8000_0000;
    }
  }

  // ---------------------------------------------------------------------------
  // Listing parse

  /** A `div.tile` entry: the first `img.lazy` (if any) and the `h3 > a` link. */
  datatype Tile = Tile(lazyImage: Option<Element>, linkHref: string, linkTitle: string)

  /** `popularMangaFromElement`, shared by the latest and search listings. */
  function MangaFromTile(tile: Tile, rel: string -> string): (m: Manga)
    ensures m.url == rel(tile.linkHref) && m.title == tile.linkTitle
    ensures m.thumbnailUrl.Some? <==> tile.lazyImage.Some?
  {
    var thumb := match tile.lazyImage
      case None => None
      case Some(img) => Some(if "data-original" in img.attrs then img.attrs["data-original"] else "");
    Entry(rel(tile.linkHref), tile.linkTitle, thumb)
  }

  /** The search listing: one entry per tile in order, and never a next page
      (the site returns at most 200 results on one page). */
  function SearchMangaParse(tiles: seq<Tile>, rel: string -> string): (r: MangasPage)
    ensures !r.hasNextPage
    ensures |r.mangas| == |tiles|
    ensures forall k :: 0 <= k < |tiles| ==> r.mangas[k] == MangaFromTile(tiles[k], rel)
  {
    MangasPage(seq(|tiles|, k requires 0 <= k < |tiles| => MangaFromTile(tiles[k], rel)), false)
  }

  // ---------------------------------------------------------------------------
  // Search request

  /** `Filter.TriState`: STATE_IGNORE, STATE_INCLUDE, STATE_EXCLUDE. */
  datatype TriState = Ignore | Include | Exclude

  /** A genre or category check box and its query-parameter name. */
  datatype Genre = Genre(id: string, state: TriState)

  datatype Filter = GenreList(genres: seq<Genre>) | Category(categories: seq<Genre>) | OtherFilter

  /** The value `arrayOf("=", "=in", "=ex")[state]`. */
  function StateValue(s: TriState): string {
    match s
    case Ignore => "="
    case Include => "=in"
    case Exclude => "=ex"
  }

  /** The query parameters one group adds: one per box not in the ignore
      state, in order. */
  function GroupParams(gs: seq<Genre>): seq<(string, string)>
    decreases |gs|
  {
    if |gs| == 0 then []
    else
      var last := gs[|gs| - 1];
      var front := GroupParams(gs[..|gs| - 1]);
      if last.state == Ignore then front else front + [(last.id, StateValue(last.state))]
  }

  /** A group sends a parameter for exactly the boxes not in the ignore
      state: `id=in` for an included box, `id=ex` for an excluded one; a
      group with every box ignored sends nothing. */
  lemma {:induction false} GroupParamsSpec(gs: seq<Genre>)
    ensures forall k :: 0 <= k < |GroupParams(gs)| ==>
      exists j :: 0 <= j < |gs| && gs[j].state != Ignore && GroupParams(gs)[k] == (gs[j].id, StateValue(gs[j].state))
    ensures forall j :: 0 <= j < |gs| && gs[j].state != Ignore ==> (gs[j].id, StateValue(gs[j].state)) in GroupParams(gs)
    ensures (forall j :: 0 <= j < |gs| ==> gs[j].state == Ignore) ==> GroupParams(gs) == []
    decreases |gs|
  {
    if |gs| > 0 {
      var front := gs[..|gs| - 1];
      var last := |gs| - 1;
      GroupParamsSpec(front);
      var fp, ps := GroupParams(front), GroupParams(gs);
      assert ps == if gs[last].state == Ignore then fp else fp + [(gs[last].id, StateValue(gs[last].state))];
      forall k | 0 <= k < |GroupParams(gs)|
        ensures exists j :: 0 <= j < |gs| && gs[j].state != Ignore && GroupParams(gs)[k] == (gs[j].id, StateValue(gs[j].state))
      {
        if k < |fp| {
          var j :| 0 <= j < |front| && front[j].state != Ignore && fp[k] == (front[j].id, StateValue(front[j].state));
          assert front[j] == gs[j];
          assert ps[k] == fp[k];
          assert gs[j].state != Ignore && ps[k] == (gs[j].id, StateValue(gs[j].state));
        } else {
          assert gs[last].state != Ignore;
          assert ps[k] == (gs[last].id, StateValue(gs[last].state));
        }
      }
      forall j | 0 <= j < |gs| && gs[j].state != Ignore
        ensures (gs[j].id, StateValue(gs[j].state)) in ps
      {
        if j < last {
          assert front[j] == gs[j];
        }
      }
    } else {
      assert GroupParams(gs) == [];
    }
  }

  function FilterParamsOf(f: Filter): seq<(string, string)> {
    match f
    case GenreList(gs) => GroupParams(gs)
    case Category(gs) => GroupParams(gs)
    case OtherFilter => []
  }

  /** The parameters of a whole filter list, filter by filter. */
  function FilterParams(fs: seq<Filter>): seq<(string, string)>
    decreases |fs|
  {
    if |fs| == 0 then [] else FilterParams(fs[..|fs| - 1]) + FilterParamsOf(fs[|fs| - 1])
  }

  const CategoryIds: seq<string> := [
    "el_7290", "el_2160", "el_8033", "el_2161", "el_3515", "el_3001", "el_3002", "el_8575", "el_2157"]

  const GenreIds: seq<string> := [
    "el_5685", "el_2155", "el_2143", "el_2148", "el_2142", "el_2156", "el_2146", "el_2152",
    "el_2158", "el_2141", "el_2118", "el_2154", "el_2119", "el_8032", "el_2137", "el_2136",
    "el_2147", "el_2126", "el_2132", "el_2133", "el_2135", "el_2151", "el_2130", "el_2144",
    "el_2121", "el_2124", "el_2159", "el_2128", "el_2134", "el_2139", "el_2129", "el_2138",
    "el_2153", "el_2150", "el_2125", "el_2140", "el_2131", "el_2127", "el_2149", "el_2123"]

  function Unchecked(ids: seq<string>): seq<Genre> {
    seq(|ids|, k requires 0 <= k < |ids| => Genre(ids[k], Ignore))
  }

  /** `getFilterList()`: the category group, then the genre group, all boxes ignored. */
  function DefaultFilters(): seq<Filter> {
    [Category(Unchecked(CategoryIds)), GenreList(Unchecked(GenreIds))]
  }

  /** The list the request is built from: the default one when none is given. */
  function EffectiveFilters(fs: seq<Filter>): seq<Filter> {
    if |fs| == 0 then DefaultFilters() else fs
  }

  /** All query parameters in the order they are added to the url. */
  function SearchParams(fs: seq<Filter>, query: string): seq<(string, string)> {
    FilterParams(EffectiveFilters(fs)) + (if |query| > 0 then [("q", query)] else [])
  }

  /** `name=value` with both parts query-encoded by `enc`. */
  function RenderedParams(ps: seq<(string, string)>, enc: string -> string): seq<string> {
    seq(|ps|, k requires 0 <= k < |ps| => enc(ps[k].0) + "=" + enc(ps[k].1))
  }

  /** The url text of a base url with query parameters. */
  function RenderUrl(base: string, ps: seq<(string, string)>, enc: string -> string): string {
    if |ps| == 0 then base else base + "?" + Join(RenderedParams(ps, enc), "&")
  }

  const SearchBase: string := BaseUrl + "/search/advanced"

  /** One group's boxes added in order, skipping those in the ignore state. */
  method AddGroup(ps: seq<(string, string)>, gs: seq<Genre>) returns (r: seq<(string, string)>)
    ensures r == ps + GroupParams(gs)
  {
    r := ps;
    for j := 0 to |gs|
      invariant r == ps + GroupParams(gs[..j])
    {
      if gs[j].state != Ignore {
        r := r + [(gs[j].id, StateValue(gs[j].state))];
      }
      assert gs[..j + 1][..j] == gs[..j];
    }
    assert gs[..|gs|] == gs;
  }

  /** The search url as the adapter builds it: parameters added filter by
      filter and box by box, the query last and only when non-empty, and the
      `=%3D` left by encoding the `=` of the values rewritten to `=`.
      `enc` is the query-component encoding of the url builder. */
  method SearchMangaRequest(page: Int32, query: string, filters: seq<Filter>, enc: string -> string)
    returns (url: string)
    ensures url == ReplaceAll(RenderUrl(SearchBase, SearchParams(filters, query), enc), "=%3D", "=")
  {
    var fs := EffectiveFilters(filters);
    var ps: seq<(string, string)> := [];
    for i := 0 to |fs|
      invariant ps == FilterParams(fs[..i])
    {
      match fs[i] {
        case GenreList(gs) => ps := AddGroup(ps, gs);
        case Category(cs) => ps := AddGroup(ps, cs);
        case OtherFilter =>
      }
      assert fs[..i + 1][..i] == fs[..i];
    }
    assert fs[..|fs|] == fs;
    assert ps == FilterParams(EffectiveFilters(filters));
    if |query| > 0 {
      ps := ps + [("q", query)];
    }
    assert ps == SearchParams(filters, query);
    url := ReplaceAll(RenderUrl(SearchBase, ps, enc), "=%3D", "=");
  }

  lemma UncheckedAddsNothing(ids: seq<string>)
    ensures GroupParams(Unchecked(ids)) == []
  {
    GroupParamsSpec(Unchecked(ids));
  }

  /** With no filters given, only the text query (if any) is sent: the
      default list has every box ignored. */
  lemma EmptyFiltersSendOnlyQuery(query: string)
    ensures SearchParams([], query) == if |query| > 0 then [("q", query)] else []
  {
    UncheckedAddsNothing(CategoryIds);
    UncheckedAddsNothing(GenreIds);
    var d := DefaultFilters();
    assert d[..1][..0] == [];
    assert FilterParams(d[..1]) == FilterParams(d[..0]) + FilterParamsOf(d[0]);
    assert d[..2] == d;
  }

  const EncodedEq: string := "=%3D"

  /** The rewrite on an encoded value that starts with `%3D`. */
  lemma RewriteEncodedValue(v: string, tail: string)
    requires '=' !in v && StartsWith(v, "%3D")
    ensures ReplaceAll("=" + v + tail, EncodedEq, "=") == "=" + v[3..] + ReplaceAll(tail, EncodedEq, "=")
  {
    var w := v[3..];
    assert v == "%3D" + w;
    assert "=" + v + tail == EncodedEq + (w + tail);
    ReplaceAllFront(EncodedEq, w + tail, "=");
    ReplaceAllSkipFree(w, tail, EncodedEq, "=");
  }

  /** The rewrite on an encoded value that does not start with `%3D`, before
      the end or a further parameter. */
  lemma RewritePlainValue(v: string, tail: string)
    requires '=' !in v && !StartsWith(v, "%3D")
    requires tail == [] || tail[0] == '&'
    ensures ReplaceAll("=" + v + tail, EncodedEq, "=") == "=" + v + ReplaceAll(tail, EncodedEq, "=")
  {
    calc {
      ReplaceAll("=" + v + tail, EncodedEq, "=");
      { PlainValueFront(v, tail); }
      "=" + ReplaceAll(v + tail, EncodedEq, "=");
      { ReplaceAllSkipFree(v, tail, EncodedEq, "="); }
      "=" + (v + ReplaceAll(tail, EncodedEq, "="));
    }
  }

  /** No `=%3D` starts at the `=` in front of such a value, so the `=` is kept. */
  lemma PlainValueFront(v: string, tail: string)
    requires !StartsWith(v, "%3D")
    requires tail == [] || tail[0] == '&'
    ensures ReplaceAll("=" + v + tail, EncodedEq, "=") == "=" + ReplaceAll(v + tail, EncodedEq, "=")
  {
    var s := "=" + v + tail;
    PlainValueNoFront(v, tail);
    assert s[1..] == v + tail;
    ReplaceAllStep(s, EncodedEq, "=");
  }

  lemma PlainValueNoFront(v: string, tail: string)
    requires !StartsWith(v, "%3D")
    requires tail == [] || tail[0] == '&'
    ensures !OccursAt("=" + v + tail, EncodedEq, 0)
  {
    var s := "=" + v + tail;
    if |v| >= 3 {
      assert s[1..4] == v[..3];
    } else if 4 <= |s| {
      assert s[1 + |v|] == '&';
      assert s[0..4][1 + |v|] == s[1 + |v|];
    }
  }

  /** The rewrite on one `name=value` parameter followed by the end or by
      more parameters: a leading `%3D` of the value is dropped. */
  lemma RewriteParam(n: string, v: string, tail: string)
    requires '=' !in n && '=' !in v
    requires tail == [] || tail[0] == '&'
    ensures ReplaceAll(n + "=" + v + tail, EncodedEq, "=") == n + "=" + RemovePrefix(v, "%3D") + ReplaceAll(tail, EncodedEq, "=")
  {
    var w := RemovePrefix(v, "%3D");
    var t := ReplaceAll(tail, EncodedEq, "=");
    Regroup(n, "=", v, tail);
    ReplaceAllSkipFree(n, "=" + v + tail, EncodedEq, "=");
    if StartsWith(v, "%3D") {
      RewriteEncodedValue(v, tail);
    } else {
      RewritePlainValue(v, tail);
    }
    Regroup(n, "=", w, t);
  }



  /** The parameters after the rewrite. */
  function RewrittenParams(ps: seq<(string, string)>, enc: string -> string): seq<string> {
    seq(|ps|, k requires 0 <= k < |ps| => enc(ps[k].0) + "=" + RemovePrefix(enc(ps[k].1), "%3D"))
  }

  lemma {:induction false} RewriteJoined(ps: seq<(string, string)>, enc: string -> string)
    requires |ps| > 0
    requires forall k :: 0 <= k < |ps| ==> '=' !in enc(ps[k].0) && '=' !in enc(ps[k].1)
    ensures ReplaceAll(Join(RenderedParams(ps, enc), "&"), EncodedEq, "=") == Join(RewrittenParams(ps, enc), "&")
    decreases |ps|
  {
    if |ps| == 1 {
      var n, v := enc(ps[0].0), enc(ps[0].1);
      RewriteParam(n, v, "");
      assert n + "=" + v + "" == RenderedParams(ps, enc)[0];
      assert ReplaceAll("", EncodedEq, "=") == "";
    } else {
      RewriteJoined(ps[1..], enc);
      RewriteJoinedStep(ps, enc);
    }
  }

  /** Both parameter renderings of a non-empty list: the first parameter's,
      then those of the rest. */
  lemma ParamsCons(ps: seq<(string, string)>, enc: string -> string)
    requires |ps| > 0
    ensures RenderedParams(ps, enc) == [RenderedParams(ps, enc)[0]] + RenderedParams(ps[1..], enc)
    ensures RewrittenParams(ps, enc) == [RewrittenParams(ps, enc)[0]] + RewrittenParams(ps[1..], enc)
  {
  }

  /** One step of `RewriteJoined`: from the rest of the parameters to all. */
  lemma RewriteJoinedStep(ps: seq<(string, string)>, enc: string -> string)
    requires |ps| > 1
    requires '=' !in enc(ps[0].0) && '=' !in enc(ps[0].1)
    requires ReplaceAll(Join(RenderedParams(ps[1..], enc), "&"), EncodedEq, "=") ==
      Join(RewrittenParams(ps[1..], enc), "&")
    ensures ReplaceAll(Join(RenderedParams(ps, enc), "&"), EncodedEq, "=") == Join(RewrittenParams(ps, enc), "&")
  {
    var n, v := enc(ps[0].0), enc(ps[0].1);
    var rest := ps[1..];
    var xs, ys := RenderedParams(ps, enc), RewrittenParams(ps, enc);
    var xj := Join(RenderedParams(rest, enc), "&");
    var yj := Join(RewrittenParams(rest, enc), "&");
    ParamsCons(ps, enc);
    calc {
      ReplaceAll(Join(xs, "&"), EncodedEq, "=");
      { JoinCons(xs[0], RenderedParams(rest, enc), "&"); Regroup3(xs[0], "&", xj); }
      ReplaceAll(n + "=" + v + ("&" + xj), EncodedEq, "=");
      { RewriteParam(n, v, "&" + xj); }
      n + "=" + RemovePrefix(v, "%3D") + ReplaceAll("&" + xj, EncodedEq, "=");
      { ReplaceAllSkipFree("&", xj, EncodedEq, "="); }
      ys[0] + ("&" + yj);
      { JoinCons(ys[0], RewrittenParams(rest, enc), "&"); Regroup3(ys[0], "&", yj); }
      Join(ys, "&");
    }
  }

  /** The `=%3D` rewrite on the whole url: with a base url and encoded names
      and values free of `=`, it drops one leading `%3D` from each value. */
  lemma RewriteUrl(base: string, ps: seq<(string, string)>, enc: string -> string)
    requires '=' !in base
    requires forall k :: 0 <= k < |ps| ==> '=' !in enc(ps[k].0) && '=' !in enc(ps[k].1)
    ensures ReplaceAll(RenderUrl(base, ps, enc), EncodedEq, "=") ==
      if |ps| == 0 then base else base + "?" + Join(RewrittenParams(ps, enc), "&")
  {
    if |ps| == 0 {
      ReplaceAllFree(base, EncodedEq, "=");
    } else {
      var j := Join(RenderedParams(ps, enc), "&");
      assert base + "?" + j == (base + "?") + j;
      ReplaceAllSkipFree(base + "?", j, EncodedEq, "=");
      RewriteJoined(ps, enc);
    }
  }

  /** Every filter parameter's value is `=in` or `=ex`. */
  lemma {:induction false} ParamValues(fs: seq<Filter>, k: int)
    requires 0 <= k < |FilterParams(fs)|
    ensures FilterParams(fs)[k].1 == "=in" || FilterParams(fs)[k].1 == "=ex"
    decreases |fs|
  {
    var front := FilterParams(fs[..|fs| - 1]);
    if k < |front| {
      ParamValues(fs[..|fs| - 1], k);
    } else {
      var ps := FilterParamsOf(fs[|fs| - 1]);
      assert FilterParams(fs)[k] == ps[k - |front|];
      match fs[|fs| - 1] {
        case GenreList(gs) => GroupParamsSpec(gs);
        case Category(gs) => GroupParamsSpec(gs);
        case OtherFilter =>
      }
    }
  }

  /** The search url for an empty text query, under the url builder's
      encoding of the values `=in` and `=ex` as `%3Din` and `%3Dex`: each
      box not in the ignore state appears as `id=in` or `id=ex`, and with no
      such box the url has no query at all. */
  lemma SearchUrlForBoxes(filters: seq<Filter>, enc: string -> string)
    requires enc("=in") == "%3Din" && enc("=ex") == "%3Dex"
    requires forall k :: 0 <= k < |FilterParams(EffectiveFilters(filters))| ==>
      var id := FilterParams(EffectiveFilters(filters))[k].0; enc(id) == id && '=' !in id
    ensures var ps := FilterParams(EffectiveFilters(filters));
      var url := ReplaceAll(RenderUrl(SearchBase, SearchParams(filters, ""), enc), EncodedEq, "=");
      url == if |ps| == 0 then SearchBase
             else SearchBase + "?" + Join(seq(|ps|, k requires 0 <= k < |ps| => ps[k].0 + ps[k].1), "&")
  {
    var ps := FilterParams(EffectiveFilters(filters));
    assert SearchParams(filters, "") == ps;
    forall k | 0 <= k < |ps| ensures enc(ps[k].0) == ps[k].0 && (ps[k].1 == "=in" || ps[k].1 == "=ex") {
      ParamValues(EffectiveFilters(filters), k);
    }
    BoxParamsRewritten(ps, enc);
    RewriteUrl(SearchBase, ps, enc);
  }

  /** Box parameters, whose values are `=in` or `=ex`, lose the `%3D` their
      encoded values start with and read `id=in` or `id=ex` again. */
  lemma BoxParamsRewritten(ps: seq<(string, string)>, enc: string -> string)
    requires enc("=in") == "%3Din" && enc("=ex") == "%3Dex"
    requires forall k :: 0 <= k < |ps| ==> enc(ps[k].0) == ps[k].0 && (ps[k].1 == "=in" || ps[k].1 == "=ex")
    ensures forall k :: 0 <= k < |ps| ==> '=' !in enc(ps[k].1)
    ensures RewrittenParams(ps, enc) == seq(|ps|, k requires 0 <= k < |ps| => ps[k].0 + ps[k].1)
  {
    assert RemovePrefix("%3Din", "%3D") == "in";
    assert RemovePrefix("%3Dex", "%3D") == "ex";
    forall k | 0 <= k < |ps| ensures RewrittenParams(ps, enc)[k] == ps[k].0 + ps[k].1 {
      var w := RemovePrefix(enc(ps[k].1), "%3D");
      if ps[k].1 == "=in" {
        assert w == "in";
      } else {
        assert w == "ex";
      }
      Regroup3(ps[k].0, "=", w);
    }
  }

  // ---------------------------------------------------------------------------
  // Status

  const LicensedMarker: string := "Запрещена публикация произведения по копирайту"
  const SingleMarker: string := "<h1 class=\"names\"> Сингл"
  const FinishedMarker: string := "<b>Перевод:</b> завершен"
  const OngoingMarker: string := "<b>Перевод:</b> продолжается"

  /** `parseStatus` of the details block's html: the copyright ban wins over
      everything, then a one-shot heading or a finished translation, then an
      ongoing translation. */
  function ParseStatus(html: string): (r: Status)
    ensures r == Licensed <==> Contains(html, LicensedMarker)
    ensures r == Completed <==>
      !Contains(html, LicensedMarker) && (Contains(html, SingleMarker) || Contains(html, FinishedMarker))
    ensures r == Ongoing <==>
      !Contains(html, LicensedMarker) && !Contains(html, SingleMarker) && !Contains(html, FinishedMarker)
      && Contains(html, OngoingMarker)
    ensures r == Unknown <==>
      !Contains(html, LicensedMarker) && !Contains(html, SingleMarker) && !Contains(html, FinishedMarker)
      && !Contains(html, OngoingMarker)
  {
    if Contains(html, LicensedMarker) then Licensed
    else if Contains(html, SingleMarker) || Contains(html, FinishedMarker) then Completed
    else if Contains(html, OngoingMarker) then Ongoing
    else Unknown
  }

  // ---------------------------------------------------------------------------
  // Chapters

  /** A chapter table row: the first link's text and href, and the last
      `td.hidden-xxs` cell's text if there is one. */
  datatype ChapterRow = ChapterRow(linkText: string, href: string, dateCell: Option<string>)

  const NewSuffix: string := " новое"
  const Ellipsis: string := "…"

  /** The link text without the " новое" badge, trimmed. */
  function BaseName(text: string): string {
    Trim(RemoveSuffix(text, NewSuffix))
  }

  /** Each title word in turn removed from the front of the name, trimming after each. */
  function StripTitleWords(name: string, words: seq<string>): string
    decreases |words|
  {
    if |words| == 0 then name else StripTitleWords(Trim(RemovePrefix(name, words[0])), words[1..])
  }

  /** The `findAnyOf` of the ten digits, or 0 when there is no digit. */
  function FirstDigitIndex(s: string): (r: nat)
    ensures (exists k :: 0 <= k < |s| && IsDigit(s[k])) ==> r < |s| && IsDigit(s[r])
    ensures forall k :: 0 <= k < |s| && k < r ==> !IsDigit(s[k])
    ensures (forall k :: 0 <= k < |s| ==> !IsDigit(s[k])) ==> r == 0
    decreases |s|
  {
    if |s| == 0 then 0
    else if IsDigit(s[0]) then 0
    else
      var r := FirstDigitIndex(s[1..]);
      if exists k :: 0 <= k < |s[1..]| && IsDigit(s[1..][k]) then 1 + r else 0
  }

  /** The ellipsis rule: when "…" comes strictly before the first digit, the
      name becomes the trimmed text after it. */
  function EllipsisRule(name: string): (r: string)
    ensures (forall k :: 0 <= k < |name| ==> !IsDigit(name[k])) ==> r == name
    ensures r != name ==> Contains(name, Ellipsis)
  {
    var dots := IndexOf(name, Ellipsis);
    var numbers := FirstDigitIndex(name);
    if 0 <= dots < numbers then
      (ContainsIff(name, Ellipsis); Trim(SubstringAfter(name, Ellipsis)))
    else name
  }

  /** The chapter name computed from the link text and the manga title. */
  function ChapterName(text: string, title: string): string {
    var base := BaseName(text);
    EllipsisRule(if Utf16Length(title) > 25 then StripTitleWords(base, Split(title, " ")) else base)
  }

  /** The two patterns the date cell is read with. */
  const DotPattern: string := "dd.MM.yy"
  const SlashPattern: string := "dd/MM/yy"

  /** The upload date of a row. `parse(pattern, text)` stands for
      `SimpleDateFormat(pattern, Locale.US).parse(text)`, with `None` where
      it throws `ParseException`. Without a date cell the date is 0; a cell
      is read with `dd.MM.yy`, and with `dd/MM/yy` when that fails; a
      failure of the second format escapes the catch block. */
  function DateOf(row: ChapterRow, parse: (string, string) -> Option<int>): Result<int> {
    match row.dateCell
    case None => Success(0)
    case Some(t) =>
      match parse(DotPattern, t)
      case Some(d) => Success(d)
      case None =>
        match parse(SlashPattern, t)
        case Some(d) => Success(d)
        case None => Failure(ParseError)
  }

  /** A row's date fails exactly when it has a cell neither pattern reads. */
  lemma DateOfFails(row: ChapterRow, parse: (string, string) -> Option<int>)
    ensures DateOf(row, parse).Failure? <==>
      row.dateCell.Some? && parse(DotPattern, row.dateCell.value).None? && parse(SlashPattern, row.dateCell.value).None?
    ensures DateOf(row, parse).Failure? ==> DateOf(row, parse).error == ParseError
    ensures row.dateCell.None? ==> DateOf(row, parse) == Success(0)
    ensures row.dateCell.Some? && parse(DotPattern, row.dateCell.value).Some? ==>
      DateOf(row, parse) == Success(parse(DotPattern, row.dateCell.value).value)
  {
  }

  /** The chapter a row yields, or the date's failure; `rel` is
      `setUrlWithoutDomain`. */
  function ChapterOf(row: ChapterRow, title: string, rel: string -> string, parse: (string, string) -> Option<int>)
    : Result<Chapter>
  {
    match DateOf(row, parse)
    case Failure(e) => Failure(e)
    case Success(d) => Success(Chapter(rel(row.href + "?mtr=1"), ChapterName(row.linkText, title), d))
  }

  /** The loop over the title's words, run for titles longer than 25 characters. */
  method StripTitle(name: string, title: string) returns (r: string)
    ensures r == if Utf16Length(title) > 25 then StripTitleWords(name, Split(title, " ")) else name
  {
    r := name;
    if Utf16Length(title) > 25 {
      var words := Split(title, " ");
      for i := 0 to |words|
        invariant StripTitleWords(r, words[i..]) == StripTitleWords(name, words)
      {
        assert words[i..][1..] == words[i + 1..];
        r := Trim(RemovePrefix(r, words[i]));
      }
    }
  }

  /** `chapterFromElement(element, manga)`: the url, then the name cleaned
      step by step, then the date, whose failure fails the row. */
  method ChapterFromElement(row: ChapterRow, title: string, rel: string -> string, parse: (string, string) -> Option<int>)
    returns (r: Result<Chapter>)
    ensures r.Failure? <==> DateOf(row, parse).Failure?
    ensures r.Failure? ==> r.error == ParseError
    ensures r.Success? ==>
      && r.value.url == rel(row.href + "?mtr=1")
      && r.value.name == ChapterName(row.linkText, title)
      && Success(r.value.dateUpload) == DateOf(row, parse)
  {
    var url := rel(row.href + "?mtr=1");
    var name := BaseName(row.linkText);
    name := StripTitle(name, title);
    name := EllipsisRule(name);
    assert name == ChapterName(row.linkText, title);
    var date := DateOf(row, parse);
    DateOfFails(row, parse);
    if date.Failure? {
      return Failure(date.error);
    }
    r := Success(Chapter(url, name, date.value));
  }


  lemma {:induction false} StripTitleWordsTrimmed(name: string, words: seq<string>)
    requires IsTrimmed(name)
    ensures IsTrimmed(StripTitleWords(name, words))
    decreases |words|
  {
    if |words| > 0 {
      StripTitleWordsTrimmed(Trim(RemovePrefix(name, words[0])), words[1..]);
    }
  }

  lemma {:induction false} StripTitleWordsInfix(name: string, words: seq<string>)
    ensures IsInfix(StripTitleWords(name, words), name)
    decreases |words|
  {
    if |words| == 0 {
      InfixRefl(name);
    } else {
      var next := Trim(RemovePrefix(name, words[0]));
      StripTitleWordsInfix(next, words[1..]);
      RemovePrefixInfix(name, words[0]);
      TrimInfix(RemovePrefix(name, words[0]));
      InfixTransitive(next, RemovePrefix(name, words[0]), name);
      InfixTransitive(StripTitleWords(next, words[1..]), next, name);
    }
  }

  lemma BaseNameIsTrimmedPiece(text: string)
    ensures IsTrimmed(BaseName(text)) && IsInfix(BaseName(text), text)
  {
    RemoveSuffixInfix(text, NewSuffix);
    TrimInfix(RemoveSuffix(text, NewSuffix));
    InfixTransitive(BaseName(text), RemoveSuffix(text, NewSuffix), text);
  }

  lemma EllipsisRuleIsTrimmedPiece(name: string)
    requires IsTrimmed(name)
    ensures IsTrimmed(EllipsisRule(name)) && IsInfix(EllipsisRule(name), name)
  {
    if 0 <= IndexOf(name, Ellipsis) < FirstDigitIndex(name) {
      var after := SubstringAfter(name, Ellipsis);
      SubstringAfterInfix(name, Ellipsis);
      TrimInfix(after);
      InfixTransitive(Trim(after), after, name);
    } else {
      InfixRefl(name);
    }
  }

  /** A chapter name is a piece of the link text with no whitespace at either
      end. */
  lemma ChapterNameIsTrimmedPiece(text: string, title: string)
    ensures IsTrimmed(ChapterName(text, title))
    ensures IsInfix(ChapterName(text, title), text)
  {
    var base := BaseName(text);
    BaseNameIsTrimmedPiece(text);
    var stripped := if Utf16Length(title) > 25 then StripTitleWords(base, Split(title, " ")) else base;
    if Utf16Length(title) > 25 {
      StripTitleWordsTrimmed(base, Split(title, " "));
      StripTitleWordsInfix(base, Split(title, " "));
    } else {
      InfixRefl(base);
    }
    InfixTransitive(stripped, base, text);
    EllipsisRuleIsTrimmedPiece(stripped);
    InfixTransitive(EllipsisRule(stripped), stripped, text);
  }


  /** With a title of at most 25 characters the title words are kept. */
  lemma ShortTitleKeepsWords(text: string, title: string)
    requires Utf16Length(title) <= 25
    ensures ChapterName(text, title) == EllipsisRule(Trim(RemoveSuffix(text, NewSuffix)))
  {
  }

  /** With `k` the position of the first digit, the text after "…" is kept
      exactly when a "…" comes before position `k`. */
  lemma EllipsisRuleCases(name: string, k: int)
    requires 0 <= k < |name| && IsDigit(name[k])
    requires forall j :: 0 <= j < k ==> !IsDigit(name[j])
    ensures Ellipsis[0] in name[..k] ==> EllipsisRule(name) == Trim(SubstringAfter(name, Ellipsis))
    ensures Ellipsis[0] !in name[..k] ==> EllipsisRule(name) == name
  {
    assert FirstDigitIndex(name) == k;
    var dots := IndexOf(name, Ellipsis);
    if Ellipsis[0] in name[..k] {
      var j :| 0 <= j < k && name[..k][j] == Ellipsis[0];
      assert OccursAt(name, Ellipsis, j) by {
        assert name[j..j + 1] == [name[j]];
      }
      assert 0 <= dots <= j;
    } else if 0 <= dots {
      assert name[dots..dots + 1][0] == name[dots];
      forall j | 0 <= j < k ensures name[j] != Ellipsis[0] {
        assert name[..k][j] == name[j];
      }
    }
  }


  /** `ChapterOf` for a fixed manga, as the function mapped over the rows. */
  function RowChapter(title: string, rel: string -> string, parse: (string, string) -> Option<int>)
    : ChapterRow -> Result<Chapter>
  {
    row => ChapterOf(row, title, rel, parse)
  }

  /** `chapterListParse`: the rows mapped in document order; the first row
      whose date fails fails the whole list. */
  function ChapterListParse(rows: seq<ChapterRow>, title: string, rel: string -> string, parse: (string, string) -> Option<int>)
    : (r: Result<seq<Chapter>>)
    ensures r.Success? ==> |r.value| == |rows|
  {
    MapAll(rows, RowChapter(title, rel, parse))
  }

  /** The list fails, with `ParseException`, exactly when some row has a
      date cell neither pattern reads. */
  lemma ChapterListParseFails(rows: seq<ChapterRow>, title: string, rel: string -> string,
                              parse: (string, string) -> Option<int>)
    ensures ChapterListParse(rows, title, rel, parse).Failure? <==>
      exists k :: 0 <= k < |rows| && DateOf(rows[k], parse).Failure?
    ensures ChapterListParse(rows, title, rel, parse).Failure? ==>
      ChapterListParse(rows, title, rel, parse).error == ParseError
  {
    var f := RowChapter(title, rel, parse);
    MapAllFails(rows, f);
    forall k | 0 <= k < |rows| ensures f(rows[k]).Failure? <==> DateOf(rows[k], parse).Failure? {
      DateOfFails(rows[k], parse);
    }
    if MapAll(rows, f).Failure? {
      var k :| 0 <= k < |rows| && f(rows[k]) == Failure(MapAll(rows, f).error);
      DateOfFails(rows[k], parse);
    }
  }

  /** A list that parses holds one chapter per row, in order, each the
      chapter that row yields. */
  lemma ChapterListParseChapters(rows: seq<ChapterRow>, title: string, rel: string -> string,
                                 parse: (string, string) -> Option<int>)
    ensures ChapterListParse(rows, title, rel, parse).Success? ==> forall k :: 0 <= k < |rows| ==>
      ChapterOf(rows[k], title, rel, parse) == Success(ChapterListParse(rows, title, rel, parse).value[k])
  {
    if ChapterListParse(rows, title, rel, parse).Success? {
      MapAllValues(rows, RowChapter(title, rel, parse));
    }
  }

  /** `chapterListRequest`: the manga's page on the site. */
  function ChapterListRequest(manga: Manga): string {
    BaseUrl + manga.url
  }

  /** `fetchChapterList`: a licensed manga fails without any request; any
      other manga costs one request, whose rows `fetch` gives, and yields
      the chapter-list parse of those rows. The requests issued are returned. */
  method FetchChapterList(manga: Manga, fetch: string -> seq<ChapterRow>, rel: string -> string,
                          parse: (string, string) -> Option<int>)
    returns (requests: seq<string>, r: Result<seq<Chapter>>)
    ensures manga.status == Licensed ==>
      requests == [] && r == Failure(Exception("Licensed - No chapters to show"))
    ensures manga.status != Licensed ==>
      var rows := fetch(ChapterListRequest(manga));
      && requests == [ChapterListRequest(manga)]
      && r == ChapterListParse(rows, manga.title, rel, parse)
  {
    if manga.status != Licensed {
      var url := ChapterListRequest(manga);
      requests := [url];
      r := ChapterListParse(fetch(url), manga.title, rel, parse);
    } else {
      requests := [];
      r := Failure(Exception("Licensed - No chapters to show"));
    }
  }


  // ---------------------------------------------------------------------------
  // Chapter numbers

  /** The regex class `\s`: space, tab, newline, vertical tab, form feed and
      carriage return. */
  predicate IsRegexSpace(c: char) {
    c == ' ' || c == '\t' || c == '\n' || c == '\U{B}' || c == '\U{C}' || c == '\r'
  }

  /** The core of a match of `\s*([0-9]+)(\s-\s)([0-9]+)\s*`: the last digit
      of the first number at `q`, then `\s-\s`, then a digit. */
  predicate BasicAt(s: string, q: int) {
    0 <= q && q + 4 < |s| && IsDigit(s[q]) && IsRegexSpace(s[q + 1]) && s[q + 2] == '-'
    && IsRegexSpace(s[q + 3]) && IsDigit(s[q + 4])
  }

  /** `q` is the leftmost match core. */
  predicate LeftmostBasic(s: string, q: int) {
    BasicAt(s, q) && forall p :: 0 <= p < q ==> !BasicAt(s, p)
  }

  /** The leftmost match core at or after `from`. Leftmost cores give
      leftmost matches: the spaces and digits a match consumes before its core
      cannot reach back over an earlier core's digit. */
  function FindBasic(s: string, from: nat): (r: Option<nat>)
    ensures r.Some? ==> from <= r.value && BasicAt(s, r.value)
    ensures r.Some? ==> forall q :: from <= q < r.value ==> !BasicAt(s, q)
    ensures r.None? ==> forall q :: from <= q ==> !BasicAt(s, q)
    decreases |s| - from
  {
    if from + 4 >= |s| then None
    else if BasicAt(s, from) then Some(from)
    else FindBasic(s, from + 1)
  }

  /** The greedy `[0-9]+` from position `i`: the longest run of digits there. */
  function DigitRun(s: string, i: nat): (r: string)
    requires i <= |s|
    ensures AllDigits(r) && i + |r| <= |s| && r == s[i..i + |r|]
    ensures i + |r| == |s| || !IsDigit(s[i + |r|])
    decreases |s| - i
  {
    if i < |s| && IsDigit(s[i]) then [s[i]] + DigitRun(s, i + 1) else []
  }

  const Extra: string := "Экстра"
  const Single: string := "Сингл"

  /** A match of `\s*([0-9]+\sЭкстра)\s*` through the digit at `q`. */
  predicate ExtraAt(s: string, q: int) {
    0 <= q && q + 2 + |Extra| <= |s| && IsDigit(s[q]) && IsRegexSpace(s[q + 1]) && OccursAt(s, Extra, q + 2)
  }

  predicate HasExtra(s: string) {
    exists q :: 0 <= q < |s| && ExtraAt(s, q)
  }

  /** The chapter number `prepareNewChapter` sets, or `current` when it
      leaves the number alone: the third group of the leftmost "A - B" match,
      else -2 for an extra chapter, else 1 for a one-shot. */
  function ChapterNumber(name: string, current: int): int {
    match FindBasic(name, 0)
    case Some(q) => DigitsValue(DigitRun(name, q + 4))
    case None =>
      if HasExtra(name) then -2
      else if Contains(name, Single) then 1
      else current
  }

  /** The number comes from the leftmost "A - B" match when there is one,
      and otherwise is -2, 1 or unchanged by the extra and one-shot rules. */
  lemma ChapterNumberSpec(name: string, current: int)
    ensures (exists q :: BasicAt(name, q)) ==>
      exists q :: LeftmostBasic(name, q) && ChapterNumber(name, current) == DigitsValue(DigitRun(name, q + 4))
    ensures (forall q :: !BasicAt(name, q)) && HasExtra(name) ==> ChapterNumber(name, current) == -2
    ensures (forall q :: !BasicAt(name, q)) && !HasExtra(name) && Contains(name, Single) ==> ChapterNumber(name, current) == 1
    ensures (forall q :: !BasicAt(name, q)) && !HasExtra(name) && !Contains(name, Single) ==> ChapterNumber(name, current) == current
  {
    var found := FindBasic(name, 0);
    if found.Some? {
      var q := found.value;
      assert LeftmostBasic(name, q);
      assert ChapterNumber(name, current) == DigitsValue(DigitRun(name, q + 4));
    } else {
      assert forall q :: !BasicAt(name, q);
    }
  }

  /** `prepareNewChapter`: sets the chapter number from the chapter name. */
  method PrepareNewChapter(chapter: ChapterObject)
    modifies chapter
    ensures chapter.chapterNumber == ChapterNumber(old(chapter.name), old(chapter.chapterNumber))
    ensures chapter.name == old(chapter.name) && chapter.url == old(chapter.url)
  {
    var name := chapter.name;
    match FindBasic(name, 0) {
      case Some(q) =>
        chapter.chapterNumber := DigitsValue(DigitRun(name, q + 4));
      case None =>
        if HasExtra(name) {
          chapter.chapterNumber := -2;
        } else if Contains(name, Single) {
          chapter.chapterNumber := 1;
        }
    }
  }

  /** The digits `b` stand at `i` and no digit follows them. */
  predicate RunAt(s: string, i: nat, b: string) {
    i + |b| <= |s| && s[i..i + |b|] == b && AllDigits(b) && (i + |b| == |s| || !IsDigit(s[i + |b|]))
  }

  lemma {:induction false} DigitRunIs(s: string, i: nat, b: string)
    requires RunAt(s, i, b)
    ensures DigitRun(s, i) == b
    decreases |b|
  {
    if |b| > 0 {
      assert s[i] == b[0];
      assert s[i + 1..i + 1 + |b[1..]|] == b[1..];
      DigitRunIs(s, i + 1, b[1..]);
    }
  }

  /** A name `pre A - B post`, with no digit in `pre` and none right after
      `B`, gets the number `B`. */
  lemma RangeNumber(pre: string, a: string, b: string, post: string, current: int)
    requires |a| > 0 && AllDigits(a) && |b| > 0 && AllDigits(b)
    requires forall k :: 0 <= k < |pre| ==> !IsDigit(pre[k])
    requires post == [] || !IsDigit(post[0])
    ensures ChapterNumber(pre + a + " - " + b + post, current) == DigitsValue(b)
  {
    var x := pre + a;
    Regroup(x, " - ", b, post);
    NoCoreBefore(pre, a, " - " + b + post);
    RangeLayout(x, b, post);
    CoreNumber(x + " - " + b + post, |x| - 1, b, current);
  }

  /** A number, ` - `, the digits `b` and a tail that does not go on with a
      digit: a core at the number's last digit, followed by `b`. */
  lemma RangeLayout(x: string, b: string, post: string)
    requires |x| > 0 && IsDigit(x[|x| - 1]) && |b| > 0 && AllDigits(b)
    requires post == [] || !IsDigit(post[0])
    ensures var s, q0 := x + " - " + b + post, |x| - 1;
      && BasicAt(s, q0) && RunAt(s, q0 + 4, b)
  {
    var y := x + " - ";
    var z := y + b;
    var s := z + post;
    var q0 := |x| - 1;
    assert s[q0] == x[q0];
    assert s[q0 + 1] == y[q0 + 1] == ' ';
    assert s[q0 + 2] == y[q0 + 2] == '-';
    assert s[q0 + 3] == y[q0 + 3] == ' ';
    assert s[q0 + 4] == z[q0 + 4] == b[0];
    assert s[q0 + 4..q0 + 4 + |b|] == z[|y|..] == b;
    if post != [] {
      assert s[q0 + 4 + |b|] == post[0];
    }
  }

  /** No core starts before the last digit of the first number. */
  lemma NoCoreBefore(pre: string, a: string, rest: string)
    requires |a| > 0 && AllDigits(a)
    requires forall k :: 0 <= k < |pre| ==> !IsDigit(pre[k])
    ensures forall q :: 0 <= q < |pre| + |a| - 1 ==> !BasicAt(pre + a + rest, q)
  {
    var s := pre + a + rest;
    forall q | 0 <= q < |pre| + |a| - 1 ensures !BasicAt(s, q) {
      if q < |pre| {
        assert s[q] == pre[q];
      } else {
        assert s[q + 1] == a[q + 1 - |pre|];
      }
    }
  }

  /** The leftmost core, followed by the digits `b`, gives the number `b`. */
  lemma CoreNumber(s: string, q0: nat, b: string, current: int)
    requires BasicAt(s, q0) && forall q :: 0 <= q < q0 ==> !BasicAt(s, q)
    requires RunAt(s, q0 + 4, b)
    ensures ChapterNumber(s, current) == DigitsValue(b)
  {
    FindBasicIs(s, q0);
    DigitRunIs(s, q0 + 4, b);
    assert ChapterNumber(s, current) == DigitsValue(DigitRun(s, q0 + 4));
  }

  lemma FindBasicIs(s: string, q0: nat)
    requires BasicAt(s, q0) && forall q :: 0 <= q < q0 ==> !BasicAt(s, q)
    ensures FindBasic(s, 0) == Some(q0)
  {
    var found := FindBasic(s, 0);
    assert found.Some?;
    assert !(found.value < q0) && !(q0 < found.value);
  }


  // ---------------------------------------------------------------------------
  // Inline page list

  const InitMarker: string := "rm_h.init( ["
  const EndMarker: string := ");"

  /** `html.substring(beginIndex, endIndex)` between the first start marker and
      the next end marker; Java's `substring` throws when either index is -1. */
  function Slice(html: string): (r: Result<string>)
    ensures !Contains(html, InitMarker) ==> r == Failure(IndexOutOfBounds)
    ensures r.Failure? ==> r.error == IndexOutOfBounds
    ensures r.Success? ==>
      var b := IndexOf(html, InitMarker);
      var e := b + |r.value|;
      && OccursAt(html, InitMarker, b) && (forall i :: 0 <= i < b ==> !OccursAt(html, InitMarker, i))
      && OccursAt(html, EndMarker, e) && (forall i :: b <= i < e ==> !OccursAt(html, EndMarker, i))
      && r.value == html[b..e]
  {
    ContainsIndexOf(html, InitMarker);
    var b := IndexOf(html, InitMarker);
    var e := IndexOfFrom(html, EndMarker, b);
    if b < 0 || e < 0 then Failure(IndexOutOfBounds) else Success(html[b..e])
  }

  /** Java's `.` in a pattern: anything but a line terminator. */
  predicate LineTerminator(c: char) {
    c == '\n' || c == '\r' || c == '\U{85}' || c == '\U{2028}' || c == '\U{2029}'
  }

  const Sep1: string := "','"
  const Sep2: string := "',\""

  /** `','` at `i`, checked character by character. */
  predicate Sep1At(t: string, i: int) {
    0 <= i && i + 3 <= |t| && t[i] == '\'' && t[i + 1] == ',' && t[i + 2] == '\''
  }

  /** `',"` at `i`, checked character by character. */
  predicate Sep2At(t: string, i: int) {
    0 <= i && i + 3 <= |t| && t[i] == '\'' && t[i + 1] == ',' && t[i + 2] == '"'
  }

  /** The lazy `.*?"` from `i`: the first `"` before any line terminator. */
  function CloseQuote(t: string, i: nat): (r: Option<nat>)
    ensures r.Some? ==> i <= r.value < |t| && t[r.value] == '"'
    decreases |t| - i
  {
    if i >= |t| then None
    else if t[i] == '"' then Some(i)
    else if LineTerminator(t[i]) then None
    else CloseQuote(t, i + 1)
  }

  /** The lazy `.*?',".*?"` from `i`: the first `',"` whose remainder closes,
      and the closing quote. */
  function SecondPart(t: string, i: nat): (r: Option<(nat, nat)>)
    ensures r.Some? ==>
      && i <= r.value.0 && Sep2At(t, r.value.0)
      && r.value.0 + 3 <= r.value.1 < |t| && t[r.value.1] == '"'
    decreases |t| - i
  {
    if Sep2At(t, i) && CloseQuote(t, i + 3).Some? then Some((i, CloseQuote(t, i + 3).value))
    else if i < |t| && !LineTerminator(t[i]) then SecondPart(t, i + 1)
    else None
  }

  /** The lazy `.*?','.*?',".*?"` from `i`. */
  function FirstPart(t: string, i: nat): (r: Option<(nat, nat, nat)>)
    ensures r.Some? ==>
      && i <= r.value.0 && Sep1At(t, r.value.0)
      && r.value.0 + 3 <= r.value.1 && Sep2At(t, r.value.1)
      && r.value.1 + 3 <= r.value.2 < |t| && t[r.value.2] == '"'
    decreases |t| - i
  {
    if Sep1At(t, i) && SecondPart(t, i + 3).Some? then
      var bc := SecondPart(t, i + 3).value;
      Some((i, bc.0, bc.1))
    else if i < |t| && !LineTerminator(t[i]) then FirstPart(t, i + 1)
    else None
  }

  /** A match: the opening quote, both separators and the closing quote. */
  datatype Span = Span(start: nat, sep1: nat, sep2: nat, close: nat)

  predicate WellFormed(t: string, sp: Span) {
    sp.start < sp.sep1 && sp.sep1 + 3 <= sp.sep2 && sp.sep2 + 3 <= sp.close < |t|
    && t[sp.start] == '\'' && Sep1At(t, sp.sep1) && Sep2At(t, sp.sep2) && t[sp.close] == '"'
  }

  /** The pattern `'.*?','.*?',".*?"` tried at position `p`. */
  function MatchAt(t: string, p: nat): (r: Option<Span>)
    ensures r.Some? ==> r.value.start == p && WellFormed(t, r.value)
  {
    if p < |t| && t[p] == '\'' then
      match FirstPart(t, p + 1)
      case None => None
      case Some(abc) => Some(Span(p, abc.0, abc.1, abc.2))
    else None
  }

  lemma {:induction false} CloseQuoteOnLine(t: string, i: nat)
    ensures CloseQuote(t, i).Some? ==>
      forall k :: i <= k < CloseQuote(t, i).value ==> !LineTerminator(t[k]) && t[k] != '"'
    decreases |t| - i
  {
    if i < |t| && t[i] != '"' && !LineTerminator(t[i]) {
      CloseQuoteOnLine(t, i + 1);
    }
  }

  lemma {:induction false} SecondPartOnLine(t: string, i: nat)
    ensures SecondPart(t, i).Some? ==>
      forall k :: i <= k < SecondPart(t, i).value.1 ==> !LineTerminator(t[k])
    decreases |t| - i
  {
    if Sep2At(t, i) && CloseQuote(t, i + 3).Some? {
      CloseQuoteOnLine(t, i + 3);
    } else if i < |t| && !LineTerminator(t[i]) {
      SecondPartOnLine(t, i + 1);
    }
  }

  lemma {:induction false} FirstPartOnLine(t: string, i: nat)
    ensures FirstPart(t, i).Some? ==>
      forall k :: i <= k < FirstPart(t, i).value.2 ==> !LineTerminator(t[k])
    decreases |t| - i
  {
    if Sep1At(t, i) && SecondPart(t, i + 3).Some? {
      SecondPartOnLine(t, i + 3);
    } else if i < |t| && !LineTerminator(t[i]) {
      FirstPartOnLine(t, i + 1);
    }
  }

  /** Every `.` of the pattern stops at a line terminator: a match lies
      within one line of the script. */
  lemma MatchOnOneLine(t: string, p: nat)
    ensures MatchAt(t, p).Some? ==>
      forall k :: p <= k <= MatchAt(t, p).value.close ==> !LineTerminator(t[k])
  {
    FirstPartOnLine(t, p + 1);
  }

  /** `Matcher.find()` from `from`: the match at the leftmost position. */
  function FindFrom(t: string, from: nat): (r: Option<Span>)
    ensures r.Some? ==> from <= r.value.start && WellFormed(t, r.value)
    decreases |t| - from
  {
    if from >= |t| then None
    else if MatchAt(t, from).Some? then MatchAt(t, from)
    else FindFrom(t, from + 1)
  }

  /** `find()` returns the match at the leftmost position where the pattern
      matches, and finds nothing exactly when it matches nowhere. */
  lemma {:induction false} FindFromLeftmost(t: string, from: nat)
    ensures var r := FindFrom(t, from);
      && (r.Some? ==> MatchAt(t, r.value.start) == r)
      && (r.Some? ==> forall p :: from <= p < r.value.start ==> MatchAt(t, p).None?)
      && (r.None? ==> forall p :: from <= p ==> MatchAt(t, p).None?)
    decreases |t| - from
  {
    if from >= |t| {
      forall p | from <= p ensures MatchAt(t, p).None? {
      }
    } else if MatchAt(t, from).None? {
      assert FindFrom(t, from) == FindFrom(t, from + 1);
      FindFromLeftmost(t, from + 1);
    }
  }

  /** All matches from `from`, each search resuming after the previous match. */
  function Matches(t: string, from: nat): (ms: seq<Span>)
    ensures forall k :: 0 <= k < |ms| ==> WellFormed(t, ms[k]) && from <= ms[k].start
    decreases |t| - from
  {
    match FindFrom(t, from)
    case None => []
    case Some(sp) => [sp] + Matches(t, sp.close + 1)
  }

  /** The matches come in order and do not overlap: each one ends before
      any later one starts. */
  lemma {:induction false} MatchesOrdered(t: string, from: nat)
    ensures forall j, k :: 0 <= j < k < |Matches(t, from)| ==> Matches(t, from)[j].close < Matches(t, from)[k].start
    decreases |t| - from
  {
    match FindFrom(t, from)
    case None =>
    case Some(sp) =>
      var rest := Matches(t, sp.close + 1);
      var ms := Matches(t, from);
      assert ms == [sp] + rest;
      MatchesOrdered(t, sp.close + 1);
      forall j, k | 0 <= j < k < |ms| ensures ms[j].close < ms[k].start {
        assert ms[k] == rest[k - 1];
        if j > 0 {
          assert ms[j] == rest[j - 1];
          assert rest[j - 1].close < rest[k - 1].start;
        } else {
          assert ms[0] == sp && sp.close + 1 <= rest[k - 1].start;
        }
      }
  }

  /** `replace("[\"']+".toRegex(), "")`: every quote character removed. */
  function StripQuotes(s: string): (r: string)
    ensures forall k :: 0 <= k < |r| ==> r[k] != '"' && r[k] != '\''
    decreases |s|
  {
    if |s| == 0 then [] else (if s[0] == '"' || s[0] == '\'' then [] else [s[0]]) + StripQuotes(s[1..])
  }

  lemma {:induction false} StripQuotesAppend(a: string, b: string)
    ensures StripQuotes(a + b) == StripQuotes(a) + StripQuotes(b)
    decreases |a|
  {
    if |a| > 0 {
      assert (a + b)[1..] == a[1..] + b;
      StripQuotesAppend(a[1..], b);
    } else {
      assert a + b == b;
    }
  }

  lemma {:induction false} StripQuotesFree(s: string)
    requires '"' !in s && '\'' !in s
    ensures StripQuotes(s) == s
    decreases |s|
  {
    if |s| > 0 {
      StripQuotesFree(s[1..]);
    }
  }

  /** The three groups of a match. */
  function Group1(t: string, sp: Span): string
    requires WellFormed(t, sp)
  {
    t[sp.start + 1..sp.sep1]
  }

  function Group2(t: string, sp: Span): string
    requires WellFormed(t, sp)
  {
    t[sp.sep1 + 3..sp.sep2]
  }

  function Group3(t: string, sp: Span): string
    requires WellFormed(t, sp)
  {
    t[sp.sep2 + 3..sp.close]
  }

  /** The text of a match, put together from its groups. */
  lemma MatchText(t: string, sp: Span)
    requires WellFormed(t, sp)
    ensures t[sp.start..sp.close + 1] ==
      "'" + Group1(t, sp) + Sep1 + Group2(t, sp) + Sep2 + Group3(t, sp) + "\""
  {
    var st, s1, s2, c := sp.start, sp.sep1, sp.sep2, sp.close;
    assert t[st..st + 1] == "'";
    assert t[c..c + 1] == "\"";
    assert t[s1..s1 + 3] == Sep1;
    assert t[s2..s2 + 3] == Sep2;
    SliceConcat(t, st, st + 1, s1);
    SliceConcat(t, st, s1, s1 + 3);
    SliceConcat(t, st, s1 + 3, s2);
    SliceConcat(t, st, s2, s2 + 3);
    SliceConcat(t, st, s2 + 3, c);
    SliceConcat(t, st, c, c + 1);
  }

  /** The match with its quotes stripped, split on `,`. */
  function UrlParts(t: string, sp: Span): (parts: seq<string>)
    requires WellFormed(t, sp)
    ensures |parts| >= 3
  {
    var stripped := StripQuotes(t[sp.start..sp.close + 1]);
    PartsCount(t, sp);
    Split(stripped, ",")
  }

  /** The stripped match has at least the two commas of its separators. */
  lemma PartsCount(t: string, sp: Span)
    requires WellFormed(t, sp)
    ensures |Split(StripQuotes(t[sp.start..sp.close + 1]), ",")| >= 3
  {
    var g1, g2, g3 := Group1(t, sp), Group2(t, sp), Group3(t, sp);
    var x := StripQuotes(g1) + "," + StripQuotes(g2) + "," + StripQuotes(g3);
    StrippedMatch(t, sp);
    CountCharAppend(StripQuotes(g1) + "," + StripQuotes(g2) + ",", StripQuotes(g3), ',');
    CountCharAppend(StripQuotes(g1) + "," + StripQuotes(g2), ",", ',');
    CountCharAppend(StripQuotes(g1) + ",", StripQuotes(g2), ',');
    CountCharAppend(StripQuotes(g1), ",", ',');
    SplitCount(x, ',');
  }

  /** The match with its quotes stripped: the stripped groups, comma-separated. */
  lemma StrippedMatch(t: string, sp: Span)
    requires WellFormed(t, sp)
    ensures StripQuotes(t[sp.start..sp.close + 1]) ==
      StripQuotes(Group1(t, sp)) + "," + StripQuotes(Group2(t, sp)) + "," + StripQuotes(Group3(t, sp))
  {
    MatchText(t, sp);
    StripsToParts(Group1(t, sp), Group2(t, sp), Group3(t, sp));
  }

  lemma StripsToParts(g1: string, g2: string, g3: string)
    ensures StripQuotes("'" + g1 + Sep1 + g2 + Sep2 + g3 + "\"") ==
      StripQuotes(g1) + "," + StripQuotes(g2) + "," + StripQuotes(g3)
  {
    var p1 := "'" + g1;
    var p2 := p1 + Sep1;
    var p3 := p2 + g2;
    var p4 := p3 + Sep2;
    var p5 := p4 + g3;
    assert StripQuotes("'") == [];
    assert StripQuotes("\"") == [];
    assert StripQuotes(Sep1) == ",";
    assert StripQuotes(Sep2) == ",";
    StripQuotesAppend("'", g1);
    assert StripQuotes(p1) == StripQuotes(g1);
    StripQuotesAppend(p1, Sep1);
    StripQuotesAppend(p2, g2);
    StripQuotesAppend(p3, Sep2);
    StripQuotesAppend(p4, g3);
    StripQuotesAppend(p5, "\"");
    assert StripQuotes(p5 + "\"") == StripQuotes(p5);
  }

  /** The three concatenation rules for the image url. */
  function UrlFromParts(parts: seq<string>): string
    requires |parts| >= 3
  {
    if parts[1] == "" && StartsWith(parts[2], "/static/") then BaseUrl + parts[2]
    else if EndsWith(parts[1], "/manga/") then parts[0] + parts[2]
    else parts[1] + parts[0] + parts[2]
  }

  function ImageUrl(t: string, sp: Span): string
    requires WellFormed(t, sp)
  {
    UrlFromParts(UrlParts(t, sp))
  }

  /** One page per match, numbered from 0, with an empty page url. */
  function PagesOf(t: string, ms: seq<Span>): (pages: seq<Page>)
    requires forall k :: 0 <= k < |ms| ==> WellFormed(t, ms[k])
    ensures |pages| == |ms|
    ensures forall k :: 0 <= k < |ms| ==>
      pages[k].index == k && pages[k].url == "" && pages[k].imageUrl == Some(ImageUrl(t, ms[k]))
  {
    seq(|ms|, k requires 0 <= k < |ms| => Page(k, "", Some(ImageUrl(t, ms[k]))))
  }

  lemma PagesOfSnoc(t: string, done: seq<Span>, sp: Span)
    requires forall k :: 0 <= k < |done| ==> WellFormed(t, done[k])
    requires WellFormed(t, sp)
    ensures PagesOf(t, done + [sp]) == PagesOf(t, done) + [Page(|done|, "", Some(ImageUrl(t, sp)))]
  {
  }

  /** The page list decoded from a chapter's html. */
  function DecodePages(html: string): Result<seq<Page>> {
    match Slice(html)
    case Failure(e) => Failure(e)
    case Success(t) => Success(PagesOf(t, Matches(t, 0)))
  }

  /** `pageListParse(response)`: the sliced script, then one page per match. */
  method PageListParse(html: string) returns (r: Result<seq<Page>>)
    ensures r == DecodePages(html)
  {
    var sliced := Slice(html);
    if sliced.Failure? {
      return Failure(sliced.error);
    }
    var pages := PagesOfScript(sliced.value);
    r := Success(pages);
  }

  /** The `while (m.find())` loop: one page per match, in order. */
  method PagesOfScript(t: string) returns (pages: seq<Page>)
    ensures pages == PagesOf(t, Matches(t, 0))
  {
    pages := [];
    ghost var done: seq<Span> := [];
    var pos := 0;
    var m := FindFrom(t, 0);
    var i := 0;
    while m.Some?
      invariant pos <= |t| + 1
      invariant m == FindFrom(t, pos)
      invariant Matches(t, 0) == done + Matches(t, pos)
      invariant forall k :: 0 <= k < |done| ==> WellFormed(t, done[k])
      invariant i == |done| && pages == PagesOf(t, done)
      decreases |t| + 1 - pos
    {
      var sp := m.value;
      MatchesStep(t, done, pos, sp);
      PagesOfSnoc(t, done, sp);
      var url := ImageUrl(t, sp);
      pages := pages + [Page(i, "", Some(url))];
      i := i + 1;
      done := done + [sp];
      pos := sp.close + 1;
      m := FindFrom(t, pos);
    }
    assert Matches(t, pos) == [];
    assert done == Matches(t, 0);
  }

  /** One more match found: it joins the matches already done. */
  lemma MatchesStep(t: string, done: seq<Span>, pos: nat, sp: Span)
    requires FindFrom(t, pos) == Some(sp)
    requires Matches(t, 0) == done + Matches(t, pos)
    ensures Matches(t, 0) == (done + [sp]) + Matches(t, sp.close + 1)
  {
    assert Matches(t, pos) == [sp] + Matches(t, sp.close + 1);
  }

  /** A group that holds no quote and no comma. */
  predicate Plain(g: string) {
    '"' !in g && '\'' !in g && ',' !in g
  }

  lemma JoinThree(a: string, b: string, c: string)
    ensures Join([a, b, c], ",") == a + "," + b + "," + c
  {
    JoinCons(b, [c], ",");
    JoinCons(a, [b, c], ",");
  }

  /** Stripping quotes from a match with plain groups leaves the groups,
      comma-separated. */
  lemma PlainStripped(t: string, sp: Span)
    requires WellFormed(t, sp)
    requires Plain(Group1(t, sp)) && Plain(Group2(t, sp)) && Plain(Group3(t, sp))
    ensures StripQuotes(t[sp.start..sp.close + 1]) ==
      Join([Group1(t, sp), Group2(t, sp), Group3(t, sp)], ",")
  {
    var g1, g2, g3 := Group1(t, sp), Group2(t, sp), Group3(t, sp);
    StrippedMatch(t, sp);
    StripQuotesFree(g1);
    StripQuotesFree(g2);
    StripQuotesFree(g3);
    JoinThree(g1, g2, g3);
  }

  /** A match whose groups are plain splits into exactly its three groups. */
  lemma PartsOfPlainGroups(t: string, sp: Span)
    requires WellFormed(t, sp)
    requires Plain(Group1(t, sp)) && Plain(Group2(t, sp)) && Plain(Group3(t, sp))
    ensures UrlParts(t, sp) == [Group1(t, sp), Group2(t, sp), Group3(t, sp)]
  {
    var ps := [Group1(t, sp), Group2(t, sp), Group3(t, sp)];
    PlainStripped(t, sp);
    assert forall k :: 0 <= k < |ps| ==> ',' !in ps[k];
    SplitJoin(ps, ",");
  }

  /** A match whose groups are plain gives the image url by the rules on the
      groups: base url + third group for an empty second group and a
      `/static/` path, first + third when the second ends in `/manga/`, and
      second + first + third otherwise. */
  lemma ImageUrlOfGroups(t: string, sp: Span)
    requires WellFormed(t, sp)
    requires Plain(Group1(t, sp)) && Plain(Group2(t, sp)) && Plain(Group3(t, sp))
    ensures var h, p, f := Group1(t, sp), Group2(t, sp), Group3(t, sp);
      ImageUrl(t, sp) ==
        if p == "" && StartsWith(f, "/static/") then BaseUrl + f
        else if EndsWith(p, "/manga/") then h + f
        else p + h + f
  {
    PartsOfPlainGroups(t, sp);
  }

  /** Without the start marker the slice throws: no page list at all. */
  lemma NoMarkerNoPages(html: string)
    requires !Contains(html, InitMarker)
    ensures DecodePages(html) == Failure(IndexOutOfBounds)
  {
  }
}
