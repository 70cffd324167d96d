/**
 * Turning located listings into car records: the lenient rules of the static
 * fetcher, where every missing element has a default and a price text that
 * `float` rejects skips the listing, and the strict rules of the browser
 * fetcher, where a missing element skips the listing.
 */
module Extract {
  import opened Wrappers
  import opened PyText
  import opened Page

  /** One row of `car_data` before it becomes a table. */
  datatype Record = Record(name: string, price: real, location: string, year: int)

  const Unknown: string := "Unknown"

  /** The price text used when a listing has no price element. */
  const PriceDefault: string := "0"

  /** The text of a price element with the naira sign and the thousands
      separators taken out. */
  function CleanPriceText(text: string): (r: string)
    ensures '₦' !in r && ',' !in r
    ensures forall c :: c != '₦' && c != ',' ==> (c in r <==> c in Strip(text))
  {
    RemoveChar(RemoveChar(Strip(text), '₦'), ',')
  }

  /** `int(t) if t.isdigit() else 0`. */
  function YearOfText(t: string): (y: nat)
    ensures IsDigits(t) ==> y < Pow10(|t|)
    ensures !IsDigits(t) ==> y == 0
  {
    if IsDigits(t) then DigitsValue(t) else 0
  }

  // The static fetcher's field rules. Each field comes from the first
  // descendant that matches its query, or falls back to a default.

  /** `listing.find('h2').text.strip()`, or "Unknown". */
  function StaticName(l: Node): (r: string)
    ensures (forall e :: e in l.descendants ==> e.tag != "h2") ==> r == Unknown
    ensures forall e, i :: IsFirstMatchAt(l, ByTag("h2"), e, i) ==> r == Strip(e.text)
  {
    match Find(l, ByTag("h2"))
    case Some(e) => Strip(e.text)
    case None => Unknown
  }

  /** The text of the first `span.price` without the naira sign and the
      commas, or "0". */
  function StaticPriceText(l: Node): (r: string)
    ensures (forall e :: e in l.descendants ==> !(e.tag == "span" && "price" in e.classes)) ==>
      r == PriceDefault
    ensures forall e, i :: IsFirstMatchAt(l, ByTagAndClass("span", "price"), e, i) ==>
      r == CleanPriceText(e.text)
  {
    match Find(l, ByTagAndClass("span", "price"))
    case Some(e) => CleanPriceText(e.text)
    case None => PriceDefault
  }

  /** The stripped text of the first `span.location`, or "Unknown". */
  function StaticLocation(l: Node): (r: string)
    ensures (forall e :: e in l.descendants ==> !(e.tag == "span" && "location" in e.classes)) ==>
      r == Unknown
    ensures forall e, i :: IsFirstMatchAt(l, ByTagAndClass("span", "location"), e, i) ==>
      r == Strip(e.text)
  {
    match Find(l, ByTagAndClass("span", "location"))
    case Some(e) => Strip(e.text)
    case None => Unknown
  }

  /** The year read from the first `span.year`, or 0. */
  function StaticYear(l: Node): (r: nat)
    ensures (forall e :: e in l.descendants ==> !(e.tag == "span" && "year" in e.classes)) ==> r == 0
    ensures forall e, i :: IsFirstMatchAt(l, ByTagAndClass("span", "year"), e, i) ==>
      r == YearOfText(Strip(e.text))
  {
    match Find(l, ByTagAndClass("span", "year"))
    case Some(e) => YearOfText(Strip(e.text))
    case None => 0
  }

  /** `float(price)` on the static path. A missing price element gives the
      text "0", whose value is 0.0 (see StaticPriceIsFloatOfText). */
  function StaticPrice(l: Node): (r: Option<real>)
    ensures (forall e :: e in l.descendants ==> !(e.tag == "span" && "price" in e.classes)) ==>
      r == Some(0.0)
    ensures forall e, i :: IsFirstMatchAt(l, ByTagAndClass("span", "price"), e, i) ==>
      r == ParseFloat(CleanPriceText(e.text))
  {
    match Find(l, ByTagAndClass("span", "price"))
    case Some(e) => ParseFloat(CleanPriceText(e.text))
    case None => Some(0.0)
  }

  /** The body of the static fetcher's `try`: a record, or `None` when
      `float(price)` raises and the listing is skipped. */
  function ExtractStatic(l: Node): (r: Option<Record>)
    ensures r.None? <==> StaticPrice(l).None?
    ensures r.Some? ==> r.value.year >= 0
    ensures r.Some? ==> r.value == Record(StaticName(l), StaticPrice(l).value, StaticLocation(l), StaticYear(l))
  {
    match StaticPrice(l)
    case Some(p) => Some(Record(StaticName(l), p, StaticLocation(l), StaticYear(l)))
    case None => None
  }

  /** The body of the browser fetcher's `try`: every one of the four elements
      must be present and the price must parse; only the year has a default. */
  function ExtractBrowser(l: Node): (r: Option<Record>)
    ensures r.Some? ==> r.value.year >= 0
  {
    match (Find(l, ByTag("h2")), Find(l, ByClass("price")), Find(l, ByClass("location")), Find(l, ByClass("year")))
    case (Some(h), Some(p), Some(loc), Some(y)) =>
      (match ParseFloat(CleanPriceText(p.text))
       case Some(v) => Some(Record(Strip(h.text), v, Strip(loc.text), YearOfText(Strip(y.text))))
       case None => None)
    case _ => None
  }

  /** The `try` body a fetcher runs on each listing. */
  function Extractor(path: Path): Node -> Option<Record> {
    match path
    case Static => ExtractStatic
    case Browser => ExtractBrowser
  }

  /** The records a loop collects when it runs `extract` on each listing and
      skips the listings where it fails: one per success, in listing order. */
  function Kept(extract: Node -> Option<Record>, ls: seq<Node>): (r: seq<Record>)
    ensures |r| <= |ls|
  {
    if ls == [] then []
    else
      (match extract(ls[0]) case Some(x) => [x] case None => [])
      + Kept(extract, ls[1..])
  }

  /** The records a fetcher collects from its listings. */
  function Records(path: Path, ls: seq<Node>): seq<Record> {
    Kept(Extractor(path), ls)
  }

  /** The `for listing in listings` loop with its per-listing `try` and
      `continue`, for the fetcher whose `try` body is `extract`. */
  method CollectRecords(extract: Node -> Option<Record>, listings: seq<Node>) returns (carData: seq<Record>)
    ensures carData == Kept(extract, listings)
  {
    carData := [];
    var i := 0;
    while i < |listings|
      invariant 0 <= i <= |listings|
      invariant carData + Kept(extract, listings[i..]) == Kept(extract, listings)
    {
      var listing := listings[i];
      var record := extract(listing);
      assert listings[i..][1..] == listings[i + 1..];
      if record.Some? {
        carData := carData + [record.value];
      }
      i := i + 1;
    }
  }

  // Properties of the collected records.

  /** A skipped listing contributes nothing and does not stop the ones after
      it: collecting works piecewise, so records keep the listings' order. */
  lemma {:induction false} KeptAppend(extract: Node -> Option<Record>, a: seq<Node>, b: seq<Node>)
    ensures Kept(extract, a + b) == Kept(extract, a) + Kept(extract, b)
  {
    if a == [] {
      assert a + b == b;
    } else {
      assert (a + b)[1..] == a[1..] + b;
      KeptAppend(extract, a[1..], b);
    }
  }

  /** Every record comes from some listing. */
  lemma {:induction false} KeptComeFromListings(extract: Node -> Option<Record>, ls: seq<Node>, x: Record)
    requires x in Kept(extract, ls)
    ensures exists l :: l in ls && extract(l) == Some(x)
  {
    if extract(ls[0]) != Some(x) {
      KeptComeFromListings(extract, ls[1..], x);
      var l :| l in ls[1..] && extract(l) == Some(x);
      assert l in ls;
    }
  }

  /** When no listing is skipped there is exactly one record per listing, at
      the listing's own position. */
  lemma {:induction false} KeptWhenNoneSkipped(extract: Node -> Option<Record>, ls: seq<Node>)
    requires forall k :: 0 <= k < |ls| ==> extract(ls[k]).Some?
    ensures |Kept(extract, ls)| == |ls|
    ensures forall k :: 0 <= k < |ls| ==> Kept(extract, ls)[k] == extract(ls[k]).value
  {
    if ls != [] {
      KeptWhenNoneSkipped(extract, ls[1..]);
    }
  }

  /** Every record has a non-negative year, on either path. */
  lemma {:induction false} RecordYearsNonNegative(path: Path, ls: seq<Node>)
    ensures forall x :: x in Records(path, ls) ==> x.year >= 0
  {
    if ls != [] {
      RecordYearsNonNegative(path, ls[1..]);
    }
  }

  // Field rules of the static fetcher.

  /** Without an `h2` the name is "Unknown", and without a `span.location`
      the location is "Unknown"; otherwise the field is the stripped text of
      the first such element, which can be empty. */
  lemma StaticNameAndLocationDefaults(l: Node)
    ensures (forall e :: e in l.descendants ==> e.tag != "h2") ==> StaticName(l) == Unknown
    ensures forall e :: Find(l, ByTag("h2")) == Some(e) ==> StaticName(l) == Strip(e.text)
    ensures forall e, i :: IsFirstMatchAt(l, ByTag("h2"), e, i) ==> StaticName(l) == Strip(e.text)
    ensures (forall e :: e in l.descendants ==> !(e.tag == "span" && "location" in e.classes)) ==>
      StaticLocation(l) == Unknown
    ensures forall e :: Find(l, ByTagAndClass("span", "location")) == Some(e) ==>
      StaticLocation(l) == Strip(e.text)
    ensures forall e, i :: IsFirstMatchAt(l, ByTagAndClass("span", "location"), e, i) ==>
      StaticLocation(l) == Strip(e.text)
  {
  }

  /** `float("0")` is 0.0. */
  lemma FloatOfPriceDefault()
    ensures ParseFloat(PriceDefault) == Some(0.0)
  {
    var z := PriceDefault;
    assert |z| == 1 && z[0] == '0';
    assert IsDigits(z);
    assert DigitsValue(z) == 0 by {
      assert z[..0] == [];
    }
    ParseFloatOfDigits([], "", z, []);
    assert [] + "" + z + [] == z;
  }

  /** The static price is `float` of the static price text, the default
      text "0" included. */
  lemma StaticPriceIsFloatOfText(l: Node)
    ensures StaticPrice(l) == ParseFloat(StaticPriceText(l))
  {
    FloatOfPriceDefault();
  }

  /** A listing without a `span.price` is kept, with price 0. */
  lemma MissingPriceSpanMeansZero(l: Node)
    requires forall e :: e in l.descendants ==> !(e.tag == "span" && "price" in e.classes)
    ensures ExtractStatic(l).Some? && ExtractStatic(l).value.price == 0.0
  {
  }

  /** A `span.price` that holds only whitespace skips the listing: the empty
      string is not a number. */
  lemma BlankPriceSpanSkipsListing(l: Node, e: Element)
    requires Find(l, ByTagAndClass("span", "price")) == Some(e)
    requires AllSpace(e.text)
    ensures ExtractStatic(l).None?
  {
    StripEmptyIffBlank(StrSpaces, e.text);
    ParseFloatOfBlank("");
  }

  /** A `span.price` holding digits, with whitespace around them, gives that
      integer as the price. */
  lemma DigitPriceSpanIsKept(l: Node, e: Element, pad: string, d: string, pad': string)
    requires Find(l, ByTagAndClass("span", "price")) == Some(e)
    requires e.text == pad + d + pad' && AllSpace(pad) && AllSpace(pad') && IsDigits(d)
    ensures ExtractStatic(l).Some? && ExtractStatic(l).value.price == DigitsValue(d) as real
  {
    assert IsDigit(d[0]) && IsDigit(d[|d| - 1]);
    StripRemovesPadding(StrSpaces, pad, d, pad');
    assert '₦' !in d && ',' !in d;
    ParseFloatOfDigits("", "", d, "");
    assert "" + "" + d + "" == d;
  }

  /** `str.strip` removes the separators U+001C to U+001F but `float` does
      not, so a separator left between the naira sign and the digits makes
      the price unreadable. */
  lemma SeparatorMakesPriceUnreadable(s: string)
    requires s == "₦\U{1C}5"
    ensures ParseFloat(CleanPriceText(s)).None?
  {
    assert |s| == 3 && s[0] == '₦' && s[1] == '\U{1C}' && s[2] == '5';
    var rest := s[1..];
    assert |rest| == 2 && rest[0] == '\U{1C}' && rest[1] == '5';
    assert s == [] + s + [];
    StripRemovesPadding(StrSpaces, [], s, []);
    assert '₦' !in rest && ',' !in rest;
    assert RemoveChar(s, '₦') == rest;
    ParseFloatRejectsSeparator(rest);
  }

  /** Such a `span.price` skips the listing on the static path. */
  lemma SeparatorInPriceSkipsListing(l: Node, e: Element)
    requires Find(l, ByTagAndClass("span", "price")) == Some(e)
    requires e.text == "₦\U{1C}5"
    ensures ExtractStatic(l).None?
  {
    SeparatorMakesPriceUnreadable(e.text);
  }

  /** The year is the value of an all-digit stripped `span.year` text and 0
      otherwise, so it is never negative and a listing is never skipped for
      its year. */
  lemma StaticYearRule(l: Node)
    ensures Find(l, ByTagAndClass("span", "year")).None? ==> StaticYear(l) == 0
    ensures forall e :: Find(l, ByTagAndClass("span", "year")) == Some(e) && !IsDigits(Strip(e.text)) ==>
      StaticYear(l) == 0
    ensures forall e :: Find(l, ByTagAndClass("span", "year")) == Some(e) && IsDigits(Strip(e.text)) ==>
      StaticYear(l) == DigitsValue(Strip(e.text))
  {
  }

  // Field rules of the browser fetcher.

  predicate HasAllFields(l: Node) {
    && Find(l, ByTag("h2")).Some?
    && Find(l, ByClass("price")).Some?
    && Find(l, ByClass("location")).Some?
    && Find(l, ByClass("year")).Some?
  }

  /** The browser fetcher skips a listing exactly when one of the four
      elements is missing or its price does not parse. */
  lemma BrowserSkipIff(l: Node)
    ensures ExtractBrowser(l).None? <==>
      !HasAllFields(l) || ParseFloat(CleanPriceText(Find(l, ByClass("price")).value.text)).None?
  {
  }

  /** A kept browser record is built from the first `h2`, `.price`,
      `.location` and `.year` of the listing: their stripped texts, `float`
      of the cleaned price text, and the year read from the year text. */
  lemma BrowserRecordFields(l: Node, h: Element, p: Element, loc: Element, y: Element,
                            i: int, j: int, k: int, m: int, v: real)
    requires IsFirstMatchAt(l, ByTag("h2"), h, i) && IsFirstMatchAt(l, ByClass("price"), p, j)
    requires IsFirstMatchAt(l, ByClass("location"), loc, k) && IsFirstMatchAt(l, ByClass("year"), y, m)
    requires ParseFloat(CleanPriceText(p.text)) == Some(v)
    ensures ExtractBrowser(l) == Some(Record(Strip(h.text), v, Strip(loc.text), YearOfText(Strip(y.text))))
  {
  }

  /** On the browser path a year that is not all digits becomes 0; it does
      not skip the listing. */
  lemma BrowserYearDefaultsToZero(l: Node)
    ensures HasAllFields(l)
      && ParseFloat(CleanPriceText(Find(l, ByClass("price")).value.text)).Some?
      && !IsDigits(Strip(Find(l, ByClass("year")).value.text))
      ==> ExtractBrowser(l).Some? && ExtractBrowser(l).value.year == 0
  {
  }
}
