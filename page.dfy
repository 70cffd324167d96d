/**
 * A fetched page, abstracted to what the scraper queries: its elements in
 * document order, each with a tag name, a class list and its text, and for
 * each element the elements nested inside it.
 */
module Page {
  import opened Wrappers

  /** An element inside a listing: tag name, class list and its `.text`. */
  datatype Element = Element(tag: string, classes: seq<string>, text: string)

  /** An element of the page together with its descendants in document order. */
  datatype Node = Node(tag: string, classes: seq<string>, descendants: seq<Element>)

  /** Every element of a page, in document order. */
  type Document = seq<Node>

  /** The two ways the program looks things up:
      BeautifulSoup's `find(tag)` and `find(tag, class_=c)`, and Selenium's
      `find_element(By.TAG_NAME, tag)` and `find_element(By.CLASS_NAME, c)`. */
  datatype Query = ByTag(tag: string) | ByTagAndClass(tag: string, cls: string) | ByClass(cls: string)

  predicate Matches(q: Query, e: Element) {
    match q
    case ByTag(t) => e.tag == t
    case ByTagAndClass(t, c) => e.tag == t && c in e.classes
    case ByClass(c) => c in e.classes
  }

  /** The position of the first element that matches `q`, or `|es|`. */
  function FirstMatch(es: seq<Element>, q: Query): (i: nat)
    ensures i <= |es|
    ensures forall j :: 0 <= j < i ==> !Matches(q, es[j])
    ensures i < |es| ==> Matches(q, es[i])
  {
    if es == [] then 0
    else if Matches(q, es[0]) then 0
    else 1 + FirstMatch(es[1..], q)
  }

  /** `e` is the descendant of `n` at position `i`, it matches `q`, and no
      descendant before it does. */
  ghost predicate IsFirstMatchAt(n: Node, q: Query, e: Element, i: int) {
    && 0 <= i < |n.descendants|
    && n.descendants[i] == e
    && Matches(q, e)
    && forall j :: 0 <= j < i ==> !Matches(q, n.descendants[j])
  }

  /** The first descendant of `n` that matches `q`, if there is one. */
  function Find(n: Node, q: Query): (r: Option<Element>)
    ensures r.None? <==> forall e :: e in n.descendants ==> !Matches(q, e)
    ensures r.Some? ==> exists i :: IsFirstMatchAt(n, q, r.value, i)
    ensures forall e, i :: IsFirstMatchAt(n, q, e, i) ==> r == Some(e)
  {
    var i := FirstMatch(n.descendants, q);
    if i < |n.descendants| then
      assert IsFirstMatchAt(n, q, n.descendants[i], i);
      Some(n.descendants[i])
    else None
  }

  /** Which of the two fetchers produced a page: the static one parses the
      HTML with BeautifulSoup, the browser one drives a headless browser. */
  datatype Path = Static | Browser

  /** A listing is a `div` with class `listing-item` for BeautifulSoup's
      `find_all('div', class_='listing-item')`, and any element with that
      class for Selenium's `find_elements(By.CLASS_NAME, "listing-item")`. */
  predicate IsListing(path: Path, n: Node) {
    "listing-item" in n.classes && (path == Static ==> n.tag == "div")
  }

  /** The listings of a page, in document order. */
  function Locate(path: Path, doc: Document): (r: Document)
    ensures |r| <= |doc|
    ensures forall n :: n in r <==> n in doc && IsListing(path, n)
  {
    if doc == [] then []
    else (if IsListing(path, doc[0]) then [doc[0]] else []) + Locate(path, doc[1..])
  }

  /** Locating works piecewise over the page, so listings keep their order. */
  lemma {:induction false} LocateAppend(path: Path, a: Document, b: Document)
    ensures Locate(path, a + b) == Locate(path, a) + Locate(path, b)
  {
    if a == [] {
      assert a + b == b;
    } else {
      assert (a + b)[1..] == a[1..] + b;
      LocateAppend(path, a[1..], b);
    }
  }

  /** Every listing BeautifulSoup finds is one Selenium finds too. */
  lemma {:induction false} StaticListingsAreBrowserListings(doc: Document)
    ensures |Locate(Static, doc)| <= |Locate(Browser, doc)|
    ensures forall n :: n in Locate(Static, doc) ==> n in Locate(Browser, doc)
  {
    if doc != [] {
      StaticListingsAreBrowserListings(doc[1..]);
    }
  }
}
