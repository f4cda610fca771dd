/** The host application's content model as the adapters fill it: catalog
    entries (`SManga`), chapters (`SChapter`), pages (`Page`) and a listing
    page (`MangasPage`), together with the few parsed-document pieces the
    adapters share (an element's attributes and the lazy-image rule). */
module Source {

  datatype Option<T> = None | Some(value: T)

  /** The exceptions the adapters throw, as values. */
  datatype Error =
    | Exception(message: string)
    | UnsupportedOperation(message: string)
    | IndexOutOfBounds
    | NullPointer
    | ParseError

  datatype Result<T> = Success(value: T) | Failure(error: Error)

  /** `SManga.UNKNOWN`, `ONGOING`, `COMPLETED` and `LICENSED`. */
  datatype Status = Unknown | Ongoing | Completed | Licensed

  /** An `SManga`: a catalog entry; fields the adapter leaves unset are `None`. */
  datatype Manga = Manga(
    url: string,
    title: string,
    thumbnailUrl: Option<string>,
    author: Option<string>,
    description: Option<string>,
    genre: Option<string>,
    status: Status)

  /** A listing entry that carries only a url, a title and maybe a thumbnail. */
  function Entry(url: string, title: string, thumbnailUrl: Option<string>): Manga {
    Manga(url, title, thumbnailUrl, None, None, None, Unknown)
  }

  /** An `SChapter` as returned by a chapter-list parse. */
  datatype Chapter = Chapter(url: string, name: string, dateUpload: int)

  /** An `SChapter` object handed back to the adapter to be completed in place. */
  class ChapterObject {
    var url: string
    var name: string
    var chapterNumber: int

    constructor (url: string, name: string, chapterNumber: int)
      ensures this.url == url && this.name == name && this.chapterNumber == chapterNumber
    {
      this.url := url;
      this.name := name;
      this.chapterNumber := chapterNumber;
    }
  }

  /** A `Page`: its index in the chapter, the page url and the image url. */
  datatype Page = Page(index: int, url: string, imageUrl: Option<string>)

  /** A `MangasPage`: one listing page and whether another one follows. */
  datatype MangasPage = MangasPage(mangas: seq<Manga>, hasNextPage: bool)

  /** The pages of a chapter are numbered 0, 1, ... in order. */
  ghost predicate Indexed(pages: seq<Page>) {
    forall k :: 0 <= k < |pages| ==> pages[k].index == k
  }

  /** A parsed element, reduced to its attributes. */
  datatype Element = Element(attrs: map<string, string>)

  /** jsoup's `Element.absUrl(key)` (the same as `attr("abs:" + key)`): the
      attribute resolved against the document's base by `abs`, or "" when
      the attribute is missing. */
  function AbsUrl(e: Element, key: string, abs: string -> string): string {
    if key in e.attrs then abs(e.attrs[key]) else ""
  }

  /** The lazy-loading rule for one element: the resolved `data-src` when the
      element has that attribute, the resolved `src` otherwise. */
  function LazyImageUrl(e: Element, abs: string -> string): (r: string)
    ensures "data-src" in e.attrs ==> r == abs(e.attrs["data-src"])
    ensures "data-src" !in e.attrs && "src" in e.attrs ==> r == abs(e.attrs["src"])
    ensures "data-src" !in e.attrs && "src" !in e.attrs ==> r == ""
  {
    AbsUrl(e, if "data-src" in e.attrs then "data-src" else "src", abs)
  }

  /** jsoup's `Elements.hasAttr(key)`: some element has the attribute. */
  predicate AnyHasAttr(es: seq<Element>, key: string) {
    exists k :: 0 <= k < |es| && key in es[k].attrs
  }

  /** jsoup's `Elements.attr(key)`: the value on the first element that has
      the attribute, or "" when none has it. */
  function FirstAttr(es: seq<Element>, key: string): (r: string)
    ensures !AnyHasAttr(es, key) ==> r == ""
    ensures AnyHasAttr(es, key) ==>
      exists k :: 0 <= k < |es| && key in es[k].attrs && r == es[k].attrs[key] && forall j :: 0 <= j < k ==> key !in es[j].attrs
    decreases |es|
  {
    if |es| == 0 then ""
    else if key in es[0].attrs then es[0].attrs[key]
    else
      assert AnyHasAttr(es, key) ==> AnyHasAttr(es[1..], key) by {
        if AnyHasAttr(es, key) {
          var k :| 0 <= k < |es| && key in es[k].attrs;
          assert es[1..][k - 1] == es[k];
        }
      }
      FirstAttr(es[1..], key)
  }

  /** jsoup's `Elements.attr("abs:" + key)`: the value for the first element
      whose attribute resolves to a non-empty url, or "". */
  function FirstAbsAttr(es: seq<Element>, key: string, abs: string -> string): (r: string)
    ensures r != "" ==> exists k :: 0 <= k < |es| && key in es[k].attrs && r == abs(es[k].attrs[key])
    decreases |es|
  {
    if |es| == 0 then ""
    else if key in es[0].attrs && abs(es[0].attrs[key]) != "" then abs(es[0].attrs[key])
    else FirstAbsAttr(es[1..], key, abs)
  }

  /** The lazy-loading rule over a selection of images: `data-src` when any
      image has it, `src` otherwise. */
  function LazyImagesUrl(es: seq<Element>, abs: string -> string): string {
    if AnyHasAttr(es, "data-src") then FirstAbsAttr(es, "data-src", abs)
    else FirstAbsAttr(es, "src", abs)
  }

  /** A sequence in the opposite order. */
  function Reversed<T>(s: seq<T>): (r: seq<T>)
    ensures |r| == |s|
    decreases |s|
  {
    if |s| == 0 then [] else [s[|s| - 1]] + Reversed(s[..|s| - 1])
  }

  /** The k-th element of the reversal is the k-th from the end. */
  lemma {:induction false} ReversedAt<T>(s: seq<T>)
    ensures forall k :: 0 <= k < |s| ==> Reversed(s)[k] == s[|s| - 1 - k]
    decreases |s|
  {
    if |s| > 0 {
      var init := s[..|s| - 1];
      ReversedAt(init);
      forall k | 0 <= k < |s| ensures Reversed(s)[k] == s[|s| - 1 - k] {
        if k > 0 {
          assert Reversed(s)[k] == Reversed(init)[k - 1];
        }
      }
    }
  }

  /** Reversing twice restores the order. */
  lemma ReversedTwice<T>(s: seq<T>)
    ensures Reversed(Reversed(s)) == s
  {
    ReversedAt(s);
    ReversedAt(Reversed(s));
  }

  /** `f` applied to each element in order; the first failure fails the
      whole sequence, as an exception thrown inside a `map` does. */
  function MapAll<A, B>(xs: seq<A>, f: A -> Result<B>): (r: Result<seq<B>>)
    ensures r.Success? ==> |r.value| == |xs|
    decreases |xs|
  {
    if |xs| == 0 then Success([])
    else
      match f(xs[0])
      case Failure(e) => Failure(e)
      case Success(y) =>
        var rest := MapAll(xs[1..], f);
        if rest.Failure? then rest else Success([y] + rest.value)
  }

  /** The map fails exactly when some element fails, and then with the error
      of an element that fails. */
  lemma {:induction false} MapAllFails<A, B>(xs: seq<A>, f: A -> Result<B>)
    ensures MapAll(xs, f).Failure? <==> exists k :: 0 <= k < |xs| && f(xs[k]).Failure?
    ensures MapAll(xs, f).Failure? ==>
      exists k :: 0 <= k < |xs| && f(xs[k]) == Failure(MapAll(xs, f).error)
    decreases |xs|
  {
    if |xs| > 0 {
      var tail := xs[1..];
      MapAllFails(tail, f);
      if f(xs[0]).Success? {
        if MapAll(tail, f).Failure? {
          var j :| 0 <= j < |tail| && f(tail[j]) == Failure(MapAll(tail, f).error);
          assert xs[j + 1] == tail[j];
        } else {
          forall k | 0 <= k < |xs| ensures f(xs[k]).Success? {
            if k > 0 {
              assert xs[k] == tail[k - 1];
            }
          }
        }
      }
    }
  }

  /** A map that succeeds holds, in order, what `f` gives for each element. */
  lemma {:induction false} MapAllValues<A, B>(xs: seq<A>, f: A -> Result<B>)
    requires MapAll(xs, f).Success?
    ensures forall k :: 0 <= k < |xs| ==> f(xs[k]) == Success(MapAll(xs, f).value[k])
    decreases |xs|
  {
    if |xs| > 0 {
      var tail := xs[1..];
      MapAllValues(tail, f);
      forall k | 0 <= k < |xs| ensures f(xs[k]) == Success(MapAll(xs, f).value[k]) {
        if k > 0 {
          assert xs[k] == tail[k - 1];
        }
      }
    }
  }
}
