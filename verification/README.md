# Five manga-source adapters, modelled in Dafny

This project models the site-specific logic of five manga-reader source
adapters. Each adapter turns a site's pages into the host application's
catalog entries (`SManga`), chapters (`SChapter`) and pages (`Page`):

- **Readmanga** (readmanga.live), in `Readmanga.dfy`:
  - paged listing requests whose offset is computed in Kotlin `Int` arithmetic;
  - the advanced-search url built from tri-state genre and category boxes, then rewritten from `=%3D` to `=`;
  - status detection from the details html;
  - chapter-name cleaning;
  - chapter numbering from the `A - B`, extra and one-shot patterns;
  - the page list decoded from the inline `rm_h.init( [...] );` script with the lazy regex `'.*?','.*?',".*?"`.
- **Team X**, in `TeamX.dfy`:
  - paged listing and search urls;
  - a latest/search feed that hides titles already shown in the current browsing session. This is a class holding the mutable set `titlesAdded`, cleared on page 1;
  - a chapter list that follows "»" links from page to page;
  - the lazy-image rule.
- **The FMReader family**, in `FMReader.dfy`:
  - ReadComicOnline.org's challenge interceptor and its page list, which drops the trailing comments page;
  - Manhwa18's image request;
  - Manga-TR's search filter, which drops novels, and its chapter pagination, which POSTs an increasing page counter;
  - Comicastle's search url, its reversed chapter order and its page list;
  - Epik Manga's local, case-insensitive search filter.
- **RouMan5**, in `RouMan5.dfy`:
  - requests whose remote page index starts at 0;
  - the filter-or-search request;
  - catalog entries built from the site's embedded JSON;
  - a newest-first chapter list;
  - a page list with an API fallback.
- **Manhwa18.cc**, in `Manhwa18Cc.dfy`: listing urls and a page list with the `data-src`/`src` rule.

`Source.dfy` holds the host application's records and the element pieces the adapters share. `Text.dfy` holds the Kotlin/Java string operations they use (`indexOf`, `contains`, `trim`, `split`, `joinToString`, `replace`, `removePrefix`, `substringAfter`/`Before`, `Int.toString`, and 32-bit wrap-around).

Some things the adapters depend on are not modelled; they are parameters of the model instead:
- the network (`fetch`, `get`, `post`, `fetchApi`);
- url resolution (`setUrlWithoutDomain` as `rel`, jsoup's `abs:` as `abs`);
- query encoding (`enc`);
- `HttpUrl` canonicalisation (`canon`);
- date parsing (`parse`, `parseDate`);
- Unicode case mapping (`upper`, `lower`).

Parsed documents are given as records that hold what the selectors pick out.

Loops that fetch until the site says stop have no cap in the code. The TeamX chapter loop follows a link from each page to the next, so the model gives it a ghost `bound` and requires that the site stops within that many fetches; the pages visited are then a function of the first page (`TeamX.Visited`). The Manga-TR chapter loop posts only a page number, so the fragment it holds at each counter value is known in closed form (`FMReader.FragmentAt`); the model names the counter at which the site stops linking further pages as a ghost parameter `last` (`FMReader.StopsAt`).

## Model

| member | source | states |
|---|---|---|
| Readmanga.ListOffsetPaging | src/ru/readmanga/src/eu/kanade/tachiyomi/extension/ru/readmanga/Readmanga.kt:47-51 | the listing offset of page `p` is `70 * (p - 1)` for every page; consecutive pages are exactly 70 entries apart while the offset fits in an `Int` |
| Readmanga.ListingRequestsDistinct | src/ru/readmanga/src/eu/kanade/tachiyomi/extension/ru/readmanga/Readmanga.kt:47-51 | different positive page numbers give different popular and latest request urls, also where the offset wraps |
| Readmanga.ListOffsetInjective | src/ru/readmanga/src/eu/kanade/tachiyomi/extension/ru/readmanga/Readmanga.kt:48 | different positive pages have different `Int` offsets `70 * (page - 1)`, wrap-around included |
| Readmanga.MangaFromTile | src/ru/readmanga/src/eu/kanade/tachiyomi/extension/ru/readmanga/Readmanga.kt:53-61 | the entry's url is the link's `href` made relative, its title the link's `title`, and it has a thumbnail exactly when the tile has an `img.lazy` |
| Readmanga.SearchMangaParse | src/ru/readmanga/src/eu/kanade/tachiyomi/extension/ru/readmanga/Readmanga.kt:92-97 | one entry per tile, in order, built by the tile rule; search never reports a next page |
| Readmanga.GroupParamsSpec | src/ru/readmanga/src/eu/kanade/tachiyomi/extension/ru/readmanga/Readmanga.kt:74-83 | a group adds exactly one parameter `(id, "=in" or "=ex")` per box not in the ignore state, and nothing when all boxes are ignored |
| Readmanga.AddGroup | src/ru/readmanga/src/eu/kanade/tachiyomi/extension/ru/readmanga/Readmanga.kt:74-83 | the loop over one group appends that group's parameters to those already added |
| Readmanga.SearchMangaRequest | src/ru/readmanga/src/eu/kanade/tachiyomi/extension/ru/readmanga/Readmanga.kt:70-90 | the url is the advanced-search base with the filter parameters (default filters when the list is empty), then `q` when the query is non-empty, with `=%3D` replaced by `=` |
| Readmanga.UncheckedAddsNothing | src/ru/readmanga/src/eu/kanade/tachiyomi/extension/ru/readmanga/Readmanga.kt:72-85 | a group whose boxes are all ignored adds no parameter |
| Readmanga.EmptyFiltersSendOnlyQuery | src/ru/readmanga/src/eu/kanade/tachiyomi/extension/ru/readmanga/Readmanga.kt:72-88 | with no filters the default filter list adds nothing, so only `q` is sent, and only when the query is non-empty |
| Readmanga.RewriteParam | src/ru/readmanga/src/eu/kanade/tachiyomi/extension/ru/readmanga/Readmanga.kt:89 | the `=%3D` to `=` rewrite turns `name=%3Dv` into `name=v` and leaves other parameters unchanged |
| Readmanga.RewriteJoined | src/ru/readmanga/src/eu/kanade/tachiyomi/extension/ru/readmanga/Readmanga.kt:89 | the rewrite of the whole query string strips one leading `%3D` from each encoded value |
| Readmanga.RewriteUrl | src/ru/readmanga/src/eu/kanade/tachiyomi/extension/ru/readmanga/Readmanga.kt:89 | the rewritten url is the base alone when there are no parameters, otherwise the base, `?` and the rewritten parameters |
| Readmanga.ParamValues | src/ru/readmanga/src/eu/kanade/tachiyomi/extension/ru/readmanga/Readmanga.kt:76 | every filter parameter's value is `=in` or `=ex` |
| Readmanga.SearchUrlForBoxes | src/ru/readmanga/src/eu/kanade/tachiyomi/extension/ru/readmanga/Readmanga.kt:70-90 | for box ids that encode to themselves, the final url carries `id=in` / `id=ex` joined by `&` |
| Readmanga.ParseStatus | src/ru/readmanga/src/eu/kanade/tachiyomi/extension/ru/readmanga/Readmanga.kt:118-123 | licensed iff the copyright marker is present; completed iff not licensed and the one-shot or finished marker is present; ongoing and unknown likewise, both directions |
| Readmanga.FetchChapterList | src/ru/readmanga/src/eu/kanade/tachiyomi/extension/ru/readmanga/Readmanga.kt:125-140 | a licensed manga fails with "Licensed - No chapters to show" and no request; any other manga makes one request and gets the chapter-list parse of its rows, failure included |
| Readmanga.ChapterListParseFails | src/ru/readmanga/src/eu/kanade/tachiyomi/extension/ru/readmanga/Readmanga.kt:137-140 | the list fails with a parse error exactly when some row has a date cell neither format reads |
| Readmanga.ChapterListParseChapters | src/ru/readmanga/src/eu/kanade/tachiyomi/extension/ru/readmanga/Readmanga.kt:137-140 | a list that parses holds one chapter per row, in order, each the chapter that row yields |
| Readmanga.DateOfFails | src/ru/readmanga/src/eu/kanade/tachiyomi/extension/ru/readmanga/Readmanga.kt:163-169 | no date cell gives 0; a cell is read with `dd.MM.yy`, else with `dd/MM/yy`; it fails exactly when neither format reads it |
| Readmanga.ChapterFromElement | src/ru/readmanga/src/eu/kanade/tachiyomi/extension/ru/readmanga/Readmanga.kt:144-172 | a row fails exactly when its date fails; otherwise its chapter has the link plus `?mtr=1` made relative, the cleaned name and the row's date |
| Readmanga.StripTitle | src/ru/readmanga/src/eu/kanade/tachiyomi/extension/ru/readmanga/Readmanga.kt:152-156 | for titles over 25 UTF-16 code units, each word of the title in turn is removed from the front of the name, trimming after each; shorter titles leave the name alone |
| Text.Utf16LengthBmp | src/ru/readmanga/src/eu/kanade/tachiyomi/extension/ru/readmanga/Readmanga.kt:152 | a title's `length` is its character count exactly when it has no character outside the Basic Multilingual Plane |
| Readmanga.FirstDigitIndex | src/ru/readmanga/src/eu/kanade/tachiyomi/extension/ru/readmanga/Readmanga.kt:158 | the index of the first digit, or 0 when there is none |
| Readmanga.EllipsisRule | src/ru/readmanga/src/eu/kanade/tachiyomi/extension/ru/readmanga/Readmanga.kt:157-162 | a name without digits is kept; a name is only changed when it contains `…` |
| Readmanga.EllipsisRuleCases | src/ru/readmanga/src/eu/kanade/tachiyomi/extension/ru/readmanga/Readmanga.kt:157-162 | when `…` comes before the first digit, the name becomes the trimmed text after it; otherwise it is kept |
| Readmanga.StripTitleWordsTrimmed | src/ru/readmanga/src/eu/kanade/tachiyomi/extension/ru/readmanga/Readmanga.kt:152-156 | after removing the title words, the name is trimmed |
| Readmanga.StripTitleWordsInfix | src/ru/readmanga/src/eu/kanade/tachiyomi/extension/ru/readmanga/Readmanga.kt:152-156 | after removing the title words, the name is a contiguous piece of the original name |
| Readmanga.BaseNameIsTrimmedPiece | src/ru/readmanga/src/eu/kanade/tachiyomi/extension/ru/readmanga/Readmanga.kt:151 | removing the ` новое` suffix and trimming gives a trimmed piece of the link text |
| Readmanga.EllipsisRuleIsTrimmedPiece | src/ru/readmanga/src/eu/kanade/tachiyomi/extension/ru/readmanga/Readmanga.kt:157-162 | the ellipsis rule keeps a trimmed name trimmed and gives a piece of it |
| Readmanga.ChapterNameIsTrimmedPiece | src/ru/readmanga/src/eu/kanade/tachiyomi/extension/ru/readmanga/Readmanga.kt:151-162 | every chapter name is trimmed and is a contiguous piece of the link text: cleaning only removes text |
| Readmanga.ShortTitleKeepsWords | src/ru/readmanga/src/eu/kanade/tachiyomi/extension/ru/readmanga/Readmanga.kt:151-162 | for a title of at most 25 UTF-16 code units, no title word is removed |
| Readmanga.FindBasic | src/ru/readmanga/src/eu/kanade/tachiyomi/extension/ru/readmanga/Readmanga.kt:179 | finds the leftmost core `digit \s - \s digit` of the basic pattern at or after a position, or reports that there is none |
| Readmanga.DigitRun | src/ru/readmanga/src/eu/kanade/tachiyomi/extension/ru/readmanga/Readmanga.kt:179 | the greedy `[0-9]+` run: all digits, a slice of the name, and followed by a non-digit or the end |
| Readmanga.ChapterNumberSpec | src/ru/readmanga/src/eu/kanade/tachiyomi/extension/ru/readmanga/Readmanga.kt:178-194 | the number is the third group of the leftmost basic match; without one it is -2 when the extra pattern matches, else 1 when the one-shot word occurs, else unchanged |
| Readmanga.PrepareNewChapter | src/ru/readmanga/src/eu/kanade/tachiyomi/extension/ru/readmanga/Readmanga.kt:178-194 | sets the chapter object's number by that rule and changes neither its name nor its url |
| Readmanga.RangeNumber | src/ru/readmanga/src/eu/kanade/tachiyomi/extension/ru/readmanga/Readmanga.kt:183-187 | a name `… A - B …` with no earlier range is numbered `B` |
| Readmanga.Slice | src/ru/readmanga/src/eu/kanade/tachiyomi/extension/ru/readmanga/Readmanga.kt:197-200 | the script runs from the first `rm_h.init( [` to the first `);` after it; a missing marker is an index-out-of-bounds failure |
| Readmanga.MatchOnOneLine | src/ru/readmanga/src/eu/kanade/tachiyomi/extension/ru/readmanga/Readmanga.kt:202 | a regex match never crosses a line terminator, because `.` does not match one |
| Readmanga.FindFromLeftmost | src/ru/readmanga/src/eu/kanade/tachiyomi/extension/ru/readmanga/Readmanga.kt:208 | `find()` returns the match at the leftmost position where the pattern matches, or none when no later position matches |
| Readmanga.MatchesOrdered | src/ru/readmanga/src/eu/kanade/tachiyomi/extension/ru/readmanga/Readmanga.kt:208 | successive matches do not overlap and come in text order |
| Readmanga.StripQuotes | src/ru/readmanga/src/eu/kanade/tachiyomi/extension/ru/readmanga/Readmanga.kt:209 | removing `["']+` leaves no quote characters |
| Readmanga.StripQuotesAppend | src/ru/readmanga/src/eu/kanade/tachiyomi/extension/ru/readmanga/Readmanga.kt:209 | quote removal distributes over concatenation |
| Readmanga.StrippedMatch | src/ru/readmanga/src/eu/kanade/tachiyomi/extension/ru/readmanga/Readmanga.kt:209 | a stripped match is the three stripped groups joined by commas |
| Readmanga.PartsCount | src/ru/readmanga/src/eu/kanade/tachiyomi/extension/ru/readmanga/Readmanga.kt:209-218 | every match splits into at least three parts, so the code's `urlParts[2]` never fails |
| Readmanga.PartsOfPlainGroups | src/ru/readmanga/src/eu/kanade/tachiyomi/extension/ru/readmanga/Readmanga.kt:209 | when the groups hold no quotes or commas, the parts are exactly the three groups |
| Readmanga.ImageUrlOfGroups | src/ru/readmanga/src/eu/kanade/tachiyomi/extension/ru/readmanga/Readmanga.kt:210-218 | the image url is site base + path for a `/static/` path with empty host, host + path after a `/manga/` prefix, and prefix + host + path otherwise |
| Readmanga.PagesOf | src/ru/readmanga/src/eu/kanade/tachiyomi/extension/ru/readmanga/Readmanga.kt:205-221 | one page per match, numbered from 0, with an empty url and the match's image url |
| Readmanga.PageListParse | src/ru/readmanga/src/eu/kanade/tachiyomi/extension/ru/readmanga/Readmanga.kt:196-222 | fails as the slice does, otherwise gives the pages of all matches in the script |
| Readmanga.PagesOfScript | src/ru/readmanga/src/eu/kanade/tachiyomi/extension/ru/readmanga/Readmanga.kt:205-221 | the `while (m.find())` loop builds exactly the pages of the match sequence |
| Readmanga.NoMarkerNoPages | src/ru/readmanga/src/eu/kanade/tachiyomi/extension/ru/readmanga/Readmanga.kt:198-200 | a response without the `rm_h.init( [` marker fails with index out of bounds, since `substring` gets the start index -1 |
| TeamX.PageSegmentOnlyAfterFirst | src/ar/teamx/src/eu/kanade/tachiyomi/extension/ar/teamx/TeamX.kt:35-37 | page 1 (or less) has no `page/N/` segment; later pages add `page/N/` |
| TeamX.ListingUrlsDistinct | src/ar/teamx/src/eu/kanade/tachiyomi/extension/ar/teamx/TeamX.kt:35-92 | different pages give different popular, latest and search urls |
| TeamX.MangaFromTile | src/ar/teamx/src/eu/kanade/tachiyomi/extension/ar/teamx/TeamX.kt:43-52 | title and relative url from the tile's link; the thumbnail is the first resolved `data-src` when any image has one, else the first resolved `src` |
| TeamX.TitlesOfIff | src/ar/teamx/src/eu/kanade/tachiyomi/extension/ar/teamx/TeamX.kt:74 | the titles added are exactly the titles of the tiles shown |
| TeamX.FirstUnseenFresh | src/ar/teamx/src/eu/kanade/tachiyomi/extension/ar/teamx/TeamX.kt:69-72 | no tile kept has a title already shown in this session |
| TeamX.FirstUnseenDistinct | src/ar/teamx/src/eu/kanade/tachiyomi/extension/ar/teamx/TeamX.kt:69-70 | the tiles kept have pairwise distinct titles |
| TeamX.FirstUnseenComplete | src/ar/teamx/src/eu/kanade/tachiyomi/extension/ar/teamx/TeamX.kt:69-72 | every title of the page not yet shown is kept |
| TeamX.FirstUnseenFirst | src/ar/teamx/src/eu/kanade/tachiyomi/extension/ar/teamx/TeamX.kt:69-70 | each kept tile is the first tile of the page with its title |
| TeamX.UnseenOfDistinct | src/ar/teamx/src/eu/kanade/tachiyomi/extension/ar/teamx/TeamX.kt:69-72 | `distinctBy` then the filter on the shown titles is the same as one pass that skips both |
| TeamX.UnseenEmpty | src/ar/teamx/src/eu/kanade/tachiyomi/extension/ar/teamx/TeamX.kt:71 | with no title shown yet, the filter keeps everything, as the `isNotEmpty` branch does |
| TeamX.SuccessiveParsesDisjoint | src/ar/teamx/src/eu/kanade/tachiyomi/extension/ar/teamx/TeamX.kt:58-79 | two successive pages of one session never show the same title |
| TeamX.TeamXSource.constructor | src/ar/teamx/src/eu/kanade/tachiyomi/extension/ar/teamx/TeamX.kt:58 | a new source has shown no title |
| TeamX.TeamXSource.LatestUpdatesRequest | src/ar/teamx/src/eu/kanade/tachiyomi/extension/ar/teamx/TeamX.kt:60-64 | gives the latest url of the page; page 1 clears the shown titles, other pages keep them |
| TeamX.TeamXSource.SearchMangaRequest | src/ar/teamx/src/eu/kanade/tachiyomi/extension/ar/teamx/TeamX.kt:89-93 | gives the search url of the page and query; page 1 clears the shown titles, other pages keep them |
| TeamX.TeamXSource.LatestUpdatesParse | src/ar/teamx/src/eu/kanade/tachiyomi/extension/ar/teamx/TeamX.kt:66-79 | the entries of the first tile per unseen title, in page order; the next-page flag of the page; those titles are added to the shown set |
| TeamX.TeamXSource.AddShown | src/ar/teamx/src/eu/kanade/tachiyomi/extension/ar/teamx/TeamX.kt:73-76 | the `map` loop yields one entry per kept tile and adds each tile's title to the shown set |
| TeamX.TeamXSource.SearchMangaParse | src/ar/teamx/src/eu/kanade/tachiyomi/extension/ar/teamx/TeamX.kt:95 | search results go through the same unseen-title filter and update the same set |
| TeamX.PageChapters | src/ar/teamx/src/eu/kanade/tachiyomi/extension/ar/teamx/TeamX.kt:127-152 | one chapter per chapter link of a page |
| TeamX.VisitedChain | src/ar/teamx/src/eu/kanade/tachiyomi/extension/ar/teamx/TeamX.kt:126-139 | the pages visited start at the first one; each visited page but the last has chapters and a "»" link, and the next page is the fetch of that link; the last page ends the loop |
| TeamX.EmptyPageEnds | src/ar/teamx/src/eu/kanade/tachiyomi/extension/ar/teamx/TeamX.kt:128-129 | a page without chapters ends the loop and adds nothing |
| TeamX.ChapterListParse | src/ar/teamx/src/eu/kanade/tachiyomi/extension/ar/teamx/TeamX.kt:122-142 | the chapters of all visited pages in visit order, and one request per "»" link followed |
| TeamX.PageListParse | src/ar/teamx/src/eu/kanade/tachiyomi/extension/ar/teamx/TeamX.kt:156-167 | one page per embed, numbered from 0, with an empty url and the embed's `data-src`, else `src`, resolved |
| FMReader.FirewallFieldOfSitePath | src/all/fmreader/src/eu/kanade/tachiyomi/extension/all/fmreader/FMReaderFactory.kt:63-65 | for a url on the site, the `dqh_firewall` field is the encoded path after the base url |
| FMReader.FirewallFieldOffSite | src/all/fmreader/src/eu/kanade/tachiyomi/extension/all/fmreader/FMReaderFactory.kt:63-65 | for a url not containing the base, the field is the whole encoded url |
| FMReader.SessionTokensIff | src/all/fmreader/src/eu/kanade/tachiyomi/extension/all/fmreader/FMReaderFactory.kt:66-67 | a token is kept iff it is in the header and contains `__cfduid` or `PHPSESSID` |
| FMReader.SessionTokensAppend | src/all/fmreader/src/eu/kanade/tachiyomi/extension/all/fmreader/FMReaderFactory.kt:67 | the filter keeps the tokens' order |
| FMReader.ChallengeCookiePieces | src/all/fmreader/src/eu/kanade/tachiyomi/extension/all/fmreader/FMReaderFactory.kt:66-68 | the cookie is empty without session tokens; otherwise splitting it on `; ` gives, in order, each session token cut before its first `;` |
| FMReader.RequestIntercept | src/all/fmreader/src/eu/kanade/tachiyomi/extension/all/fmreader/FMReaderFactory.kt:58-74 | a response without `set-cookie` headers passes through; otherwise the result is a POST of the firewall form to the same url |
| FMReader.InterceptSitePath | src/all/fmreader/src/eu/kanade/tachiyomi/extension/all/fmreader/FMReaderFactory.kt:62-70 | for a site url, the challenge POST carries the encoded path |
| FMReader.ReadComicOnlinePageListParse | src/all/fmreader/src/eu/kanade/tachiyomi/extension/all/fmreader/FMReaderFactory.kt:77-82 | one page per option but the last, numbered from 0, with the option's `value` as url and no image url |
| FMReader.ReadComicOnlineDropsLast | src/all/fmreader/src/eu/kanade/tachiyomi/extension/all/fmreader/FMReaderFactory.kt:81 | the pages plus the dropped last option page are exactly the option pages |
| FMReader.Manhwa18ImageRequest | src/all/fmreader/src/eu/kanade/tachiyomi/extension/all/fmreader/FMReaderFactory.kt:103-109 | a missing image url is a null-pointer failure; an image url on `manhwa18` uses the base request; any other is a GET without a referer |
| FMReader.MangaTRSearchResultsIff | src/all/fmreader/src/eu/kanade/tachiyomi/extension/all/fmreader/FMReaderFactory.kt:124-141 | an entry is in the results iff it comes from a link whose siblings' text does not contain "Novel" |
| FMReader.MangaTRSearchResultsAppend | src/all/fmreader/src/eu/kanade/tachiyomi/extension/all/fmreader/FMReaderFactory.kt:127-129 | the results keep the document order |
| FMReader.MangaTRSearchMangaParse | src/all/fmreader/src/eu/kanade/tachiyomi/extension/all/fmreader/FMReaderFactory.kt:124-132 | the loop adds exactly the non-novel results, in order, and search never reports a next page |
| FMReader.MangaTRMangaIdOf | src/all/fmreader/src/eu/kanade/tachiyomi/extension/all/fmreader/FMReaderFactory.kt:162 | for a url `…manga-ID.rest` with no earlier `manga-` and no `.` in ID, the id sent is ID |
| FMReader.StopsAtUnique | src/all/fmreader/src/eu/kanade/tachiyomi/extension/all/fmreader/FMReaderFactory.kt:176-187 | the counter at which the pagination stops (the first page number the current fragment does not link to) is determined by the site |
| FMReader.ReadAt | src/all/fmreader/src/eu/kanade/tachiyomi/extension/all/fmreader/FMReaderFactory.kt:172-184 | the first fragment read is the first response; the j-th one after it is the answer to a POST of page `j + 1` to the request url |
| FMReader.MangaTRChapterListParse | src/all/fmreader/src/eu/kanade/tachiyomi/extension/all/fmreader/FMReaderFactory.kt:170-190 | when the site stops linking at counter `last`, the result is the chapters of the `last - 1` fragments read, in order, and the pages POSTed are 2, 3, …, `last - 1` |
| FMReader.MangaTRFetchChapterList | src/all/fmreader/src/eu/kanade/tachiyomi/extension/all/fmreader/FMReaderFactory.kt:161-168 | the request url carries the manga id; the chapters are those of the paginated parse from that url |
| FMReader.ComicastleSearchPageParam | src/all/fmreader/src/eu/kanade/tachiyomi/extension/all/fmreader/FMReaderFactory.kt:201-202 | page 1 has no `c-page` parameter; later pages end with `&c-page=N` |
| FMReader.ComicastleSearchPagesDistinct | src/all/fmreader/src/eu/kanade/tachiyomi/extension/all/fmreader/FMReaderFactory.kt:201-202 | different pages give different search urls |
| FMReader.ComicastleChapterOrder | src/all/fmreader/src/eu/kanade/tachiyomi/extension/all/fmreader/FMReaderFactory.kt:218 | the k-th chapter is the k-th from the end of the base list, and reversing again gives the base list |
| FMReader.ComicastlePageListParse | src/all/fmreader/src/eu/kanade/tachiyomi/extension/all/fmreader/FMReaderFactory.kt:219-226 | one page per option, numbered from 0, with the option's `value` as url and no image url |
| FMReader.ContainsIgnoringCaseOfExact | src/all/fmreader/src/eu/kanade/tachiyomi/extension/all/fmreader/FMReaderFactory.kt:293 | an exact occurrence is also a case-insensitive one |
| FMReader.EpikMangaSearchIff | src/all/fmreader/src/eu/kanade/tachiyomi/extension/all/fmreader/FMReaderFactory.kt:291-301 | an entry is in the results iff it comes from a link whose text contains the query ignoring case |
| FMReader.EpikMangaSearchAppend | src/all/fmreader/src/eu/kanade/tachiyomi/extension/all/fmreader/FMReaderFactory.kt:291-301 | the results keep document order: those for two runs of links are the first run's followed by the second's |
| FMReader.EpikMangaEmptyQuery | src/all/fmreader/src/eu/kanade/tachiyomi/extension/all/fmreader/FMReaderFactory.kt:293 | the empty query keeps every link |
| FMReader.EpikMangaSearchMangaParse | src/all/fmreader/src/eu/kanade/tachiyomi/extension/all/fmreader/FMReaderFactory.kt:291-301 | search never reports a next page and gives at most one entry per link |
| RouMan5.RemotePage | src/zh/rouman5/src/eu/kanade/tachiyomi/extension/zh/rouman5/RouMan5.kt:30 | the remote page index is the page number minus one, in `Int` arithmetic |
| RouMan5.RemotePageInjective | src/zh/rouman5/src/eu/kanade/tachiyomi/extension/zh/rouman5/RouMan5.kt:30-37 | different page numbers give different remote indices, wrap-around included |
| RouMan5.ListingRequests | src/zh/rouman5/src/eu/kanade/tachiyomi/extension/zh/rouman5/RouMan5.kt:30-32 | popular and latest urls end with `&page=` and the page minus one, and differ for different pages |
| RouMan5.ToUriPart | src/zh/rouman5/src/eu/kanade/tachiyomi/extension/zh/rouman5/RouMan5.kt:211-214 | an out-of-range state is an index-out-of-bounds failure; an empty value gives ""; otherwise `name=value` |
| RouMan5.FilterPartsSpec | src/zh/rouman5/src/eu/kanade/tachiyomi/extension/zh/rouman5/RouMan5.kt:40-44 | the parameters succeed iff every filter's part does, and are exactly the non-empty parts |
| RouMan5.SearchMangaRequest | src/zh/rouman5/src/eu/kanade/tachiyomi/extension/zh/rouman5/RouMan5.kt:35-53 | the request fails exactly when some filter's state is out of range |
| RouMan5.SearchMangaRequestCases | src/zh/rouman5/src/eu/kanade/tachiyomi/extension/zh/rouman5/RouMan5.kt:45-52 | with filter parameters and no query, the books url with the parameters; otherwise the search url with the query |
| RouMan5.SearchIgnoresFilters | src/zh/rouman5/src/eu/kanade/tachiyomi/extension/zh/rouman5/RouMan5.kt:46-50 | a non-empty query makes the request independent of the filters |
| RouMan5.FilterParamsSplitBack | src/zh/rouman5/src/eu/kanade/tachiyomi/extension/zh/rouman5/RouMan5.kt:44 | the `&`-joined parameters split back into the parameters |
| RouMan5.BookStatus | src/zh/rouman5/src/eu/kanade/tachiyomi/extension/zh/rouman5/RouMan5.kt:80-84 | ongoing iff `continued` is true; completed otherwise |
| RouMan5.BookMangaRoundTrip | src/zh/rouman5/src/eu/kanade/tachiyomi/extension/zh/rouman5/RouMan5.kt:73-93 | the entry's url gives back the book id, and its genre splits back into the tags |
| RouMan5.MangaFromBook | src/zh/rouman5/src/eu/kanade/tachiyomi/extension/zh/rouman5/RouMan5.kt:73-93 | the tags loop and the field copies build the book's entry |
| RouMan5.ParseListing | src/zh/rouman5/src/eu/kanade/tachiyomi/extension/zh/rouman5/RouMan5.kt:56-71 | one entry per book, in order, and the listing's next-page flag |
| RouMan5.ChapterListParse | src/zh/rouman5/src/eu/kanade/tachiyomi/extension/zh/rouman5/RouMan5.kt:105-127 | a `lastUpdate` the date format cannot read fails with a parse error; otherwise the chapters newest first: the k-th is the site's chapter `n - 1 - k`, all dated with the parsed update time |
| RouMan5.SiteChaptersDistinct | src/zh/rouman5/src/eu/kanade/tachiyomi/extension/zh/rouman5/RouMan5.kt:116-124 | different chapters have different urls and the same date |
| RouMan5.ApiUrlOfChapter | src/zh/rouman5/src/eu/kanade/tachiyomi/extension/zh/rouman5/RouMan5.kt:137-138 | the API url of a chapter url is the same path under `/api/books/` |
| RouMan5.PageListParse | src/zh/rouman5/src/eu/kanade/tachiyomi/extension/zh/rouman5/RouMan5.kt:130-149 | with embedded images no fallback request is made; without them the API url is fetched; one page per image source, numbered from 0, with an empty url |
| RouMan5.ImageUrlParse | src/zh/rouman5/src/eu/kanade/tachiyomi/extension/zh/rouman5/RouMan5.kt:156-157 | always an unsupported-operation failure |
| Manhwa18Cc.ListingRequestsDistinct | multisrc/overrides/madara/manhwa18cc/src/Manhwa18CcFactory.kt:41-47 | popular urls end with `?orderby=trending` and latest ones with `?orderby=latest`; no popular url is a latest url; different pages give different urls |
| Manhwa18Cc.PageListParse | multisrc/overrides/madara/manhwa18cc/src/Manhwa18CcFactory.kt:55-65 | one page per image, numbered from 0, the document location as url, and the image's `data-src` when present, else `src`, else "", resolved |
| Source.LazyImageUrl | src/ar/teamx/src/eu/kanade/tachiyomi/extension/ar/teamx/TeamX.kt:161-164 | the resolved `data-src` when the element has it, else the resolved `src`, else "" |
| Source.FirstAttr | src/ar/teamx/src/eu/kanade/tachiyomi/extension/ar/teamx/TeamX.kt:47-50 | the attribute of the first element that has it, or "" when none has |
| Source.ReversedAt | src/zh/rouman5/src/eu/kanade/tachiyomi/extension/zh/rouman5/RouMan5.kt:126 | the k-th element of the reversal is the k-th from the end |

## Left out

- Networking, HTML parsing and JSON parsing are not modelled. Documents are records of what the selectors return, and requests are url strings. Fetches, GETs and POSTs are function parameters.
- Header lists are not modelled: the user agent, `Referer`, `X-Requested-With` and the `Cookie` header.
- The Readmanga rate limiter and the Team X client timeouts are not modelled.
- Date formats are parameters: Readmanga's `parse(pattern, text)` and RouMan5's `parseDate`, with `None` where `SimpleDateFormat.parse` throws `ParseException`. Which texts each pattern accepts, and the times it gives, are not modelled.
- Chapter numbers are integers. The Kotlin `Float`s `-2f`, `1f` and `number.toFloat()` are all whole numbers here.
- Readmanga.MangaFromTile assumes the `h3 > a` link exists. The code would fail with a null pointer without one.
- `mangaDetailsParse` and its requests are not modelled for any site. This covers Readmanga, Team X, Manga-TR, Comicastle, Say Truyen, Epik Manga and RouMan5.
- Readmanga `getFilterList` is modelled only as its ids. The genre and category id tables are `GenreIds` and `CategoryIds`; their display names are not modelled.
- TeamX.ChapterListParse takes a ghost fuel `bound` and requires that the site stops within it; FMReader.MangaTRChapterListParse takes the ghost counter `last` at which the site stops. The loops in the code have no cap. A site that never stops is outside the model.
- TeamX.MangaFromTile assumes the tile's first link exists. The code's `first()` would fail without one.
- TeamX.TeamXSource.SearchMangaRequest puts the query into the url as it is, like the code. Encoding by the HTTP layer is not modelled.
- Team X `imageUrlParse` (TeamX.kt line 169) always throws. It has the same shape as RouMan5.ImageUrlParse and is not modelled a second time.
- The FMReader base class is not part of this model. Where a site calls into it, its result is an input:
  - the `chapterFromElement` results in a Manga-TR fragment;
  - Comicastle's base chapter list;
  - Manhwa18's base `imageRequest` (`BaseImageRequest`).
- FMReader.RequestIntercept computes the challenge cookie (FMReaderFactory.kt lines 66-68) as the code does. The code then discards the header builder on line 69, so the cookie is never sent; the model leaves it unused as well. Its value is modelled by `ChallengeCookie`.
- The interceptor's own POST passes through the client's interceptor again. Here `post` is a parameter, so that re-entry is not modelled.
- Case-insensitive matching uses the `upper`/`lower` parameters for Kotlin's per-character `uppercaseChar`/`lowercaseChar`. The Unicode tables are not modelled.
- RouMan5's `HttpUrl.parse(...)?.newBuilder()` is the `canon` parameter. A url it cannot parse, which Kotlin prints as `null`, is part of that parameter.
- RouMan5's `optBoolean("continued")` is an `Option<bool>`. The `else -> UNKNOWN` branch of the `when` cannot be reached, because `optBoolean` returns only true or false. A missing value is `None`, which, like `false`, gives completed.
- These request urls are not modelled; each is a single string template:
  - Manga-TR search and `pageListRequest`;
  - ReadComicOnline.org `imageUrlRequest` and `imageUrlParse`;
  - Comicastle popular and latest;
  - Epik Manga popular, latest and search;
  - RouMan5 `pageListRequest` and `chapterListRequest`.
- Say Truyen's `pageListParse` trims each image url and throws the result away, so it returns the base pages unchanged. The base class is not modelled, and with it this override.
- FMReader.MangaTRChapterListParse counts pages with an unbounded integer. The code's Kotlin `Int` counter would wrap only after 2^31 requests.
- Reading and decoding response bodies is not modelled. This covers `response.body()!!.string()`, `asJsoup()` and the JSON payloads of RouMan5.
- StripTitle and ChapterName compare the title's length in UTF-16 code units (`Text.Utf16Length`), as Kotlin's `length` does. Every other position and length in the model counts characters (Unicode scalar values), not UTF-16 code units; those positions are only compared with each other within one text, never with a constant.
