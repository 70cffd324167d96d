/**
 * The two fetchers, the choice between them, and the session state that
 * keeps the last clean table for the CSV download.
 */
module App {
  import opened Wrappers
  import opened PyText
  import opened Page
  import opened Extract
  import opened Table

  /** What a fetch yields: the page, or a failure (a request error or non-2xx
      status on the static path, a browser error on the other), which the
      fetcher reports and turns into an empty DataFrame. */
  datatype Fetched = Loaded(doc: Document) | FetchFailed

  /** The table a fetcher returns. */
  function RawTable(path: Path, fetched: Fetched): (t: seq<Row>)
    ensures fetched.FetchFailed? ==> t == []
    ensures fetched.Loaded? ==> |t| <= |Locate(path, fetched.doc)|
  {
    match fetched
    case FetchFailed => []
    case Loaded(doc) => ToRows(Records(path, Locate(path, doc)))
  }

  /** `fetch_car_data_bs(url)` once the request has been made. */
  method FetchCarDataBs(fetched: Fetched) returns (df: Frame)
    ensures fresh(df) && df.Valid() && df.Rows() == RawTable(Static, fetched)
  {
    match fetched
    case FetchFailed =>
      df := new Frame([]);
    case Loaded(doc) =>
      var listings := Locate(Static, doc);
      var carData := CollectRecords(ExtractStatic, listings);
      df := new Frame(ToRows(carData));
  }

  /** `fetch_car_data_selenium(url)` once the browser has loaded the page. */
  method FetchCarDataSelenium(fetched: Fetched) returns (df: Frame)
    ensures fresh(df) && df.Valid() && df.Rows() == RawTable(Browser, fetched)
  {
    match fetched
    case FetchFailed =>
      df := new Frame([]);
    case Loaded(doc) =>
      var listings := Locate(Browser, doc);
      var carData := CollectRecords(ExtractBrowser, listings);
      df := new Frame(ToRows(carData));
  }

  // Choosing the fetcher.

  /** `"jiji" in selected_site.lower()`: the static fetcher is used. */
  predicate UsesStaticFetcher(url: string) {
    Contains(Lower(url), StaticMarker)
  }

  /** The text whose presence in the lower-cased URL selects the static
      fetcher. */
  const StaticMarker: string := "jiji"

  /** The fetcher a URL is sent to: the static one exactly when "jiji"
      occurs in the URL once it is lower-cased. */
  function PathFor(url: string): (p: Path)
    ensures p == Static <==> exists i :: OccursAt(Lower(url), StaticMarker, i)
  {
    ContainsIff(Lower(url), StaticMarker);
    if UsesStaticFetcher(url) then
      assert exists i :: OccursAt(Lower(url), StaticMarker, i);
      Static
    else
      assert !exists i :: OccursAt(Lower(url), StaticMarker, i);
      Browser
  }

  /** A URL without the letter j, in either case, goes to the browser. */
  lemma NoLetterJMeansBrowser(url: string)
    requires 'j' !in url && 'J' !in url
    ensures PathFor(url) == Browser
  {
    var low := Lower(url);
    assert forall k :: 0 <= k < |low| ==> low[k] != 'j' by {
      forall k | 0 <= k < |low| ensures low[k] != 'j' {
        assert url[k] != 'j' && url[k] != 'J';
      }
    }
    forall i | 0 <= i <= |low| - 4 ensures !OccursAt(low, StaticMarker, i) {
      assert low[i..i + 4][0] == low[i] != StaticMarker[0];
    }
  }

  /** The sites offered in the selector, with their URLs. */
  const CarWebsites: seq<(string, string)> := [
    ("Jiji.ng", "https://www.jiji.ng/cars"),
    ("Cheki Nigeria", "https://www.cheki.com.ng"),
    ("Cars45", "https://www.cars45.com"),
    ("Autochek", "https://autochek.africa/ng")
  ]

  /** A URL that holds "jiji" in lower case goes to the static fetcher. */
  lemma MarkerMeansStatic(url: string, i: nat)
    requires i + |StaticMarker| <= |url| && url[i..i + |StaticMarker|] == StaticMarker
    ensures PathFor(url) == Static
  {
    var low := Lower(url);
    forall k | i <= k < i + |StaticMarker| ensures low[k] == url[k] {
      assert url[k] == url[i..i + |StaticMarker|][k - i] == StaticMarker[k - i];
    }
    assert low[i..i + |StaticMarker|] == url[i..i + |StaticMarker|];
    assert OccursAt(low, StaticMarker, i);
    assert exists j :: OccursAt(Lower(url), StaticMarker, j);
  }

  /** Jiji's URL goes to the static fetcher. */
  lemma JijiIsStatic(url: string)
    requires url == CarWebsites[0].1
    ensures PathFor(url) == Static
  {
    assert url[12..16] == StaticMarker;
    MarkerMeansStatic(url, 12);
  }

  /** The other three sites go to the browser. */
  lemma OthersUseBrowser(url: string)
    requires url in [CarWebsites[1].1, CarWebsites[2].1, CarWebsites[3].1]
    ensures PathFor(url) == Browser
  {
    NoLetterJMeansBrowser(url);
  }

  // The session state.

  /** The stored table after one fetch-and-analyze step that fetched `raw`:
      replaced by its cleaned form when `raw` is non-empty, kept otherwise. */
  function NextStored(stored: Option<seq<Row>>, raw: seq<Row>): (r: Option<seq<Row>>)
    ensures raw == [] ==> r == stored
    ensures raw != [] ==> r.Some? && |r.value| <= |raw|
  {
    if raw == [] then stored else Some(Clean(raw))
  }

  /** `st.session_state`, as far as this program uses it. */
  class Session {
    /** `st.session_state.df_clean`, absent until a fetch yields rows. */
    var dfClean: Option<seq<Row>>

    constructor ()
      ensures dfClean == None
    {
      dfClean := None;
    }

    /** The "Fetch and Analyze Data" button. */
    method FetchAndAnalyze(url: string, fetched: Fetched)
      modifies this
      ensures dfClean == NextStored(old(dfClean), RawTable(PathFor(url), fetched))
    {
      var dfRaw: Frame;
      if UsesStaticFetcher(url) {
        dfRaw := FetchCarDataBs(fetched);
      } else {
        dfRaw := FetchCarDataSelenium(fetched);
      }
      if !dfRaw.Empty() {
        var cleaned := CleanCarData(dfRaw);
        dfClean := Some(cleaned.Rows());
      }
    }
  }

  // What the session holds over many presses of the button.

  /** The stored table after fetching each of `raws` in turn. */
  function StoredAfter(stored: Option<seq<Row>>, raws: seq<seq<Row>>): Option<seq<Row>>
    decreases |raws|
  {
    if raws == [] then stored
    else StoredAfter(NextStored(stored, raws[0]), raws[1..])
  }

  /** Starting from an empty session, a table is stored exactly when some
      fetch yielded rows, and then it is the cleaned form of the last such
      fetch, itself a clean table. */
  lemma {:induction false} StoredIsLastNonEmptyFetch(stored: Option<seq<Row>>, raws: seq<seq<Row>>)
    ensures (forall k :: 0 <= k < |raws| ==> raws[k] == []) ==> StoredAfter(stored, raws) == stored
    ensures forall k :: 0 <= k < |raws| && raws[k] != [] && (forall j :: k < j < |raws| ==> raws[j] == []) ==>
      StoredAfter(stored, raws) == Some(Clean(raws[k]))
    decreases |raws|
  {
    if raws != [] {
      StoredIsLastNonEmptyFetch(NextStored(stored, raws[0]), raws[1..]);
      forall k | 0 <= k < |raws| && raws[k] != [] && (forall j :: k < j < |raws| ==> raws[j] == [])
        ensures StoredAfter(stored, raws) == Some(Clean(raws[k]))
      {
        if k > 0 {
          assert raws[1..][k - 1] == raws[k];
          assert forall j :: k - 1 < j < |raws[1..]| ==> raws[1..][j] == raws[j + 1];
        } else {
          assert forall j :: 0 <= j < |raws[1..]| ==> raws[1..][j] == raws[j + 1];
        }
      }
    }
  }

  /** Whatever the session holds is a clean table: cleaning it again would
      change nothing. */
  lemma {:induction false} StoredTableIsClean(stored: Option<seq<Row>>, raws: seq<seq<Row>>)
    requires stored.Some? ==> Clean(stored.value) == stored.value
    ensures StoredAfter(stored, raws).Some? ==> Clean(StoredAfter(stored, raws).value) == StoredAfter(stored, raws).value
    decreases |raws|
  {
    if raws != [] {
      if raws[0] != [] {
        CleanIdempotent(raws[0]);
      }
      StoredTableIsClean(NextStored(stored, raws[0]), raws[1..]);
    }
  }

  /** A failed fetch, or a page without listings, leaves the stored table as
      it was. */
  lemma NothingFetchedKeepsStored(stored: Option<seq<Row>>, path: Path, fetched: Fetched)
    requires fetched.FetchFailed? || Locate(path, fetched.doc) == []
    ensures NextStored(stored, RawTable(path, fetched)) == stored
  {
  }

  /** A fetch that yields rows stores exactly those rows: the fetchers'
      tables are already clean. */
  lemma FetchedRowsAreStored(stored: Option<seq<Row>>, path: Path, fetched: Fetched)
    ensures RawTable(path, fetched) != [] ==>
      NextStored(stored, RawTable(path, fetched)) == Some(RawTable(path, fetched))
  {
    if fetched.Loaded? {
      ExtractedTablesAreClean(Records(path, Locate(path, fetched.doc)));
    }
  }
}
