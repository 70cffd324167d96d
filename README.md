# Abtech car analytics: the listing-to-table pipeline

This project models the decision logic of `main2.py`, a Streamlit app that
scrapes car listings from Nigerian marketplaces. The app fetches a listings
page, picks out the listing elements, turns each listing into a record of
name, price, location and year, and builds a pandas DataFrame from the
records. It then cleans the price and year columns and keeps the cleaned
table in the session for a CSV download.

The modules are:

- `Wrappers`: the `Option` type.
- `PyText`: the Python string operations the program relies on.
  - `str.strip()` uses the full `str.isspace` character set.
  - `float()` strips only space and `\t\n\v\f\r`, after turning non-ASCII whitespace into spaces. The separators U+001C to U+001F are therefore whitespace to `str.strip()` but not to `float()`.
  - `str.replace(c, '')` removes one character.
  - `str.isdigit()` and `int()` are modelled on ASCII digits only (see `PyText.IsDigits` under "Left out").
  - `str.lower()` is modelled on ASCII letters only (see `PyText.Lower` under "Left out").
  - Substring `in` is modelled as `Contains`.
  - `float()` is modelled on decimal text: an optional sign, digits with at most one `.`, and at least one digit. Exponents, `inf`, `nan` and underscores are not modelled (see `PyText.ParseFloat` under "Left out").
- `Page`: a fetched page, as the sequence of its elements in document order.
  - Each element has a tag, a class list and the elements nested in it.
  - BeautifulSoup's `find`/`find_all` and Selenium's `find_element(s)` are modelled as first-match lookups and order-preserving filters.
- `Extract`: turning listings into records.
  - The static fetcher is lenient: every missing element has a default ("Unknown", the price text "0", the year 0). A price text that `float` rejects skips the listing.
  - The browser fetcher is strict: all four elements must be present, and only the year has a default.
  - The per-listing `try`/`continue` loop is the method `CollectRecords`. It is proved equal to the function `Kept`.
- `Table`: DataFrame cells and rows, and `clean_car_data`.
  - `pd.to_numeric(errors='coerce')`, `fillna(0)`, `astype(int)` (truncation toward zero) and `dropna` are each modelled.
  - The class `Frame` holds the four columns. `CleanCarData` overwrites its price and year columns in place and returns a new frame from `dropna`. An empty frame is returned as the same object.
- `App`: the two fetchers, the choice between them, and `st.session_state.df_clean`.
  - The choice is `"jiji" in url.lower()`.
  - `Session.FetchAndAnalyze` is the "Fetch and Analyze Data" button.
  - `StoredAfter` follows the stored table over any sequence of button presses.

The network and the browser are not modelled. Each fetcher takes the outcome
of its fetch as a parameter (`Fetched`): either the loaded page or a failure.
On a failure the fetcher returns an empty table.

Some behaviour of `main2.py` that the model keeps:

- A year is read only when its stripped text is all digits; any other year text gives 0, and so does a missing year element on the static path. The model reads ASCII digits only; the line on `PyText.IsDigits` under "Left out" says what that changes.
- No row is dropped for its price. A zero or negative price stays in the table.
- Both fetchers select listings by the `listing-item` class, on every site. The static fetcher also requires the element to be a `div`; the browser fetcher takes any element with that class.
- The static fetcher parses whatever body a successful request returns.
- The browser wait call in `main2.py:68-69` has an unclosed parenthesis. The model follows the evident intent: wait, locate, then extract.

## Model

| member | source | states |
|---|---|---|
| PyText.StripIn | main2.py:42 | the stripped text, for `str.strip` (`Strip`) and for the strip inside `float` (`FloatStrip`), is never longer than the input, and it is empty or begins and ends with a character that strip does not remove |
| PyText.StripEmptyIffBlank | main2.py:42 | a text strips to the empty string exactly when every character of it is whitespace |
| PyText.StripKeepsCharacters | main2.py:42 | stripping never introduces a character |
| PyText.StripIsInnerSlice | main2.py:42 | the stripped text is one contiguous run of the input |
| PyText.StripRemovesPadding | main2.py:42 | whitespace added around a text that neither starts nor ends with whitespace is exactly what strip removes |
| PyText.StripIdempotent | main2.py:42 | stripping twice is stripping once |
| PyText.TrimStartDropsSpace | main2.py:42 | what is dropped at the front is all whitespace |
| PyText.TrimEndDropsSpace | main2.py:42 | what is dropped at the back is all whitespace |
| PyText.RemoveChar | main2.py:44 | the removed character no longer occurs, every other character occurs exactly when it did before, and a text without it is unchanged |
| PyText.RemoveCharAppend | main2.py:44 | removal works piecewise over a concatenation, so the kept characters keep their order |
| PyText.IsDigits | main2.py:48 | the model's `str.isdigit()`: true exactly for a non-empty text of ASCII digits (a definition; what it decides is stated by `YearOfText` and `StaticYearRule`) |
| PyText.DigitsValue | main2.py:48 | `int` of an ASCII digit string is a natural number below 10 to the power of its length |
| PyText.DigitsValueAppend | main2.py:48 | positional notation: the value of a concatenation is the left value shifted by the right length plus the right value |
| PyText.DigitsValuePrepend | main2.py:48 | positional notation: a leading digit is worth its value shifted past the digits after it |
| PyText.LeadingZeroIgnored | main2.py:48 | a leading zero does not change the value |
| PyText.Lower | main2.py:125 | same length, no upper-case ASCII letter left, an upper-case letter becomes the letter 32 code points above, and every other character is unchanged |
| PyText.LowerIdempotent | main2.py:125 | lower-casing twice is lower-casing once |
| PyText.Contains | main2.py:125 | a pattern longer than the text never occurs in it, and the empty pattern always does |
| PyText.ContainsIff | main2.py:125 | the substring test holds exactly when the pattern occurs at some offset |
| PyText.FractionValue | main2.py:49 | digits after the decimal point are worth between 0 and 1 |
| PyText.FractionValueShifted | main2.py:49 | positional notation after the point: the fraction of digits `f`, times 10 to the power of the length of `f`, is the integer `f` spells |
| PyText.ParseUnsigned | main2.py:49 | an accepted unsigned decimal is non-negative and holds at least one digit |
| PyText.ParseUnsignedAccepts | main2.py:49 | an unsigned text is accepted exactly when it is digits with at most one `.` and at least one digit |
| PyText.ParseUnsignedOfDigits | main2.py:49 | a digit string reads as its integer value |
| PyText.ParseUnsignedOfDecimal | main2.py:49 | `w.f` reads as the integer `w` plus the fraction `f` |
| PyText.ParseFloat | main2.py:49 | `float` yields a negative number only from a text that holds a minus sign |
| PyText.ParseFloatAccepts | main2.py:49 | `float` accepts a text exactly when, stripped of the whitespace `float` removes, it is an unsigned decimal with one optional leading sign |
| PyText.ParseFloatOfSigned | main2.py:49 | once stripped, a `-` negates the magnitude, a `+` or no sign keeps it, and the text is rejected when the magnitude is |
| PyText.FloatPadding | main2.py:49 | `float`'s strip removes exactly the whitespace `float` ignores (every `str.isspace` character except U+001C to U+001F) around a text with non-whitespace ends |
| PyText.ParseFloatOfDigits | main2.py:49 | an integer with an optional sign and whitespace around it parses to its signed value |
| PyText.ParseFloatOfDecimal | main2.py:49 | a decimal `w.f` with an optional sign and whitespace around it parses to the signed value of `w` plus the fraction `f` |
| PyText.ParseFloatOfBlank | main2.py:49 | the empty and the blank text are not numbers |
| PyText.ParseFloatRejectsSeparator | main2.py:49 | a text that starts with one of U+001C to U+001F is not a number |
| Page.FirstMatch | main2.py:42-47 | the position found is that of the first matching element in document order, or the end when none matches |
| Page.Find | main2.py:42-47 | no element is found exactly when no descendant matches the query; otherwise the element found is the first matching descendant, and the first matching descendant is always what is found |
| Page.Locate | main2.py:38 | the listings are at most as many as the page's elements, and an element is among them exactly when it is a listing for that fetcher |
| Page.LocateAppend | main2.py:38 | locating works piecewise over the page, so listings keep document order |
| Page.StaticListingsAreBrowserListings | main2.py:71 | every listing the static locator finds, the browser locator finds too |
| Extract.CleanPriceText | main2.py:44 | the price text holds no naira sign and no comma, and every other character of the stripped text is kept |
| Extract.YearOfText | main2.py:48 | an all-digit year text gives a natural number with at most that many digits; any other text gives 0 |
| Extract.StaticName | main2.py:42 | the name is "Unknown" when the listing has no `h2`, and otherwise the stripped text of its first `h2` |
| Extract.StaticPriceText | main2.py:43-44 | the price text is "0" when the listing has no `span.price`, and otherwise the cleaned text of its first `span.price` |
| Extract.StaticLocation | main2.py:45-46 | the location is "Unknown" when the listing has no `span.location`, and otherwise the stripped text of its first `span.location` |
| Extract.StaticYear | main2.py:47-48 | the year is 0 when the listing has no `span.year`, and otherwise the year read from the stripped text of its first `span.year` |
| Extract.StaticPrice | main2.py:43-49 | the price is 0.0 when the listing has no `span.price`, and otherwise `float` of the cleaned text of its first `span.price` |
| Extract.ExtractStatic | main2.py:41-49 | a static listing is skipped exactly when its price does not parse; a kept record is the name, price, location and year given by the static field rules, and its year is non-negative |
| Extract.ExtractBrowser | main2.py:76-85 | a kept browser record has a non-negative year |
| Extract.Kept | main2.py:40-52 | the loop keeps at most one record per listing |
| Extract.CollectRecords | main2.py:37-52 | the loop over the listings, with its per-listing `try` and `continue`, yields exactly the records of `Kept`; the same loop runs at main2.py:72-88 |
| Extract.KeptAppend | main2.py:40-52 | collecting works piecewise, so records keep listing order and a skipped listing does not stop the later ones |
| Extract.KeptComeFromListings | main2.py:40-52 | every record is the extraction of some listing |
| Extract.KeptWhenNoneSkipped | main2.py:40-52 | when no listing is skipped there is one record per listing, at that listing's position |
| Extract.RecordYearsNonNegative | main2.py:47-48 | every record of either fetcher has a year of at least 0 |
| Extract.StaticNameAndLocationDefaults | main2.py:42-46 | without an `h2` the name is "Unknown", and with one it is the stripped text of the element `find('h2')` returns, which is the first `h2`; the same holds for the location and `span.location` |
| Extract.FloatOfPriceDefault | main2.py:44 | the default price text "0" parses to 0.0 |
| Extract.StaticPriceIsFloatOfText | main2.py:43-49 | the static price is `float` of the cleaned price text, or of "0" when there is no price span |
| Extract.MissingPriceSpanMeansZero | main2.py:43-44 | a listing without a `span.price` is kept, with price 0 |
| Extract.BlankPriceSpanSkipsListing | main2.py:43-52 | a `span.price` holding only whitespace skips the listing |
| Extract.DigitPriceSpanIsKept | main2.py:43-49 | a `span.price` holding digits with whitespace around them gives that integer as the price |
| Extract.SeparatorMakesPriceUnreadable | main2.py:44-49 | the price text "₦", U+001C, "5" survives `str.strip`, loses the naira sign, and is then rejected by `float` |
| Extract.SeparatorInPriceSkipsListing | main2.py:43-52 | a `span.price` holding that text skips the listing |
| Extract.StaticYearRule | main2.py:47-48 | the static year is 0 without a `span.year` or when its stripped text is not all digits, and otherwise it is the digits' value |
| Extract.BrowserRecordFields | main2.py:76-85 | a kept browser record holds the stripped text of the first `h2`, `float` of the cleaned text of the first `.price`, the stripped text of the first `.location`, and the year read from the stripped text of the first `.year` |
| Extract.BrowserSkipIff | main2.py:74-88 | a browser listing is skipped exactly when one of the four elements is missing or its price does not parse |
| Extract.BrowserYearDefaultsToZero | main2.py:79-84 | a browser year that is not all digits becomes 0 and does not skip the listing |
| Table.ToRow | main2.py:54 | the row made of a model record is clean: name and location present, the price a number and the year a whole number (a model price is never NaN, since the model's `float` rejects "nan") |
| Table.ToRowInjective | main2.py:54 | distinct records give distinct rows, so the table loses no field |
| Table.ToRows | main2.py:54 | one row per record, in record order, each the row of its record |
| Table.ToNumeric | main2.py:103-104 | `to_numeric` keeps a number, reads a missing value as NaN, and reads a text exactly when `float` accepts it |
| Table.NumericOrZero | main2.py:103-104 | after `fillna(0)`, a number stays, and a missing value or a text `float` rejects becomes 0 |
| Table.Truncate | main2.py:104 | `astype(int)` truncates toward zero and keeps whole numbers as they are |
| Table.CoercePrice | main2.py:103 | the new price is always a number; a number stays as it is, and a missing value or a text `float` rejects becomes 0 |
| Table.DecimalPriceCellIsRead | main2.py:103 | a text price cell holding a signed or unsigned decimal with whitespace around it becomes the number it spells |
| Table.DigitPriceCellIsRead | main2.py:103 | a text price cell holding a signed or unsigned integer with whitespace around it becomes that integer |
| Table.CoerceYear | main2.py:104 | the new year is always a whole number; a whole number stays as it is, and a missing value or a text `float` rejects becomes 0 |
| Table.CoerceRow | main2.py:103-104 | name and location are untouched, so the coerced row is clean exactly when both are present |
| Table.CoerceRows | main2.py:103-104 | row for row, only the price and year cells are coerced |
| Table.DropNa | main2.py:105 | at most as many rows, and a row is kept exactly when it has no missing cell |
| Table.DropNaAppend | main2.py:105 | `dropna` works piecewise, so rows keep their order |
| Table.Clean | main2.py:98-106 | an empty table stays empty, cleaning never adds rows, and every row left has a name, a location, a numeric price and a whole-number year |
| Table.CleanAppend | main2.py:103-106 | cleaning works piecewise, so it keeps the rows' order |
| Table.CleanOneRow | main2.py:103-105 | a row is dropped exactly when its name or location is missing, and otherwise only its price and year change |
| Table.UnreadablePriceBecomesZero | main2.py:103 | a price that cannot be read becomes 0 and the row stays |
| Table.CoerceCleanRow | main2.py:103-104 | coercion leaves a clean row as it is |
| Table.CleanFixesCleanTables | main2.py:98-106 | a table whose rows are all clean is returned unchanged |
| Table.CleanIdempotent | main2.py:98-106 | cleaning twice is cleaning once |
| Table.ExtractedTablesAreClean | main2.py:103-105 | under the model's `float`, a table the fetchers build is already clean, so cleaning changes nothing (a "nan" price is the exception in the program; see `PyText.ParseFloat` under "Left out") |
| Table.Frame.Empty | main2.py:99 | `df.empty` holds exactly when the frame has no rows; the same test is made at main2.py:130 |
| Table.Frame.constructor | main2.py:54 | `pd.DataFrame(rows)` gives a frame whose rows are those rows |
| Table.CleanCarData | main2.py:98-106 | the returned frame holds the cleaned rows; an empty frame is returned as the same, unchanged object; otherwise the input frame's price and year columns are overwritten with their coerced values and a new frame is returned |
| App.RawTable | main2.py:30-54 | a failed fetch gives the empty table, and a loaded page gives at most one row per listing |
| App.FetchCarDataBs | main2.py:25-54 | the static fetcher returns a new frame holding the static records of the listings, or an empty one when the fetch fails |
| App.FetchCarDataSelenium | main2.py:57-95 | the browser fetcher returns a new frame holding the browser records of the listings, or an empty one when the browser fails |
| App.PathFor | main2.py:125-128 | the static fetcher is used exactly when "jiji" occurs in the lower-cased URL, and the browser fetcher otherwise |
| App.NoLetterJMeansBrowser | main2.py:125-128 | a URL without a `j` or `J` goes to the browser fetcher |
| App.MarkerMeansStatic | main2.py:125-126 | a URL holding "jiji" in lower case goes to the static fetcher |
| App.JijiIsStatic | main2.py:114 | Jiji's URL goes to the static fetcher |
| App.OthersUseBrowser | main2.py:115-117 | the Cheki, Cars45 and Autochek URLs go to the browser fetcher |
| App.NextStored | main2.py:130-134 | an empty fetched table keeps the stored table, and a non-empty one replaces it with a table no longer than the fetched one |
| App.Session.constructor | main2.py:162 | a new session holds no table |
| App.Session.FetchAndAnalyze | main2.py:123-134 | after a press the stored table is the one `NextStored` gives for the table the chosen fetcher returned |
| App.StoredIsLastNonEmptyFetch | main2.py:130-134 | after a sequence of presses, the stored table is unchanged when every fetch was empty, and otherwise it is the cleaned table of the last non-empty fetch |
| App.StoredTableIsClean | main2.py:133-134 | whatever the session holds is a fixed point of cleaning |
| App.NothingFetchedKeepsStored | main2.py:130-131 | a failed fetch, or a page without listings, leaves the stored table as it was |
| App.FetchedRowsAreStored | main2.py:130-134 | under the model's `float`, a fetch that yields rows stores exactly those rows (not so for a "nan" price in the program; see `PyText.ParseFloat` under "Left out") |

## Left out

- HTTP requests, the request headers and timeout, `raise_for_status`, and the headless browser with its wait and `quit`. Their outcome is the parameter `Fetched`: a page, or a failure that gives an empty table.
- Streamlit presentation: the page setup, CSS, title, site selector, spinner, the warning and error messages, the charts and their `nunique() > 1` guards, and the CSV serialisation and download. The only session state modelled is `df_clean`.
- The session stores the cleaned rows as a value, not the DataFrame object.
- PyText.ParseFloat: does not accept exponents, `inf`, `nan`, underscores or non-ASCII digits, which Python's `float` accepts. Values are exact reals, not IEEE doubles. The whitespace `float` strips is modelled exactly: non-ASCII whitespace and space and `\t\n\v\f\r`, but not U+001C to U+001F. One consequence: for a price text "nan" (any case, optional sign, whitespace around it) the program keeps the listing with a NaN price and `fillna(0)` in `clean_car_data` then sets that price to 0, whereas the model skips the listing. This is the one case where cleaning changes a table the program fetched; `Table.ToRow`, `Table.ExtractedTablesAreClean` and `App.FetchedRowsAreStored` hold only for the model's `float`.
- Table.ExtractedTablesAreClean: holds for tables of model records only; in the program a fetched "nan" price is NaN and `clean_car_data` turns it into 0, so cleaning changes that table (see `PyText.ParseFloat` above).
- App.FetchedRowsAreStored: holds for tables of model records only; in the program a fetch with a "nan" price stores that row with price 0, not the fetched row (see `PyText.ParseFloat` above).
- Table.ToNumeric: `pd.to_numeric` on a text cell uses the same decimal grammar as `float`. pandas's own number parser is not modelled.
- PyText.Lower: lower-cases ASCII letters only; Python's `str.lower` also maps other alphabets.
- PyText.IsDigits: ASCII digits only; Python's `str.isdigit` also accepts other Unicode digits. On a year text such as "²", `isdigit()` holds but `int()` raises, so the program skips the listing while the model keeps it with year 0. On a year text such as "٢٠٢٠" the program stores 2020 while the model stores 0.
- PyText.Contains: its own contract states only the length facts; the full meaning of the substring test is stated by `ContainsIff`.
- Cells hold unbounded integers and exact reals. pandas stores the columns as `int64` and `float64`, so the model does not capture overflow of a very long year or rounding of a price. Nor does it capture CPython's limit on integer conversion: `int()` raises `ValueError` on a digit string longer than 4300 digits, so the program skips such a listing (main2.py:48, 84), while the model keeps it with the digits' value.
- Table.CleanCarData: the exception fallback in `clean_car_data` is not modelled. On the model's cells no step can raise, so that branch cannot be taken.
- The page is modelled by what the program queries: an element's tag, class list and text, and its descendants in document order. HTML parsing, the DOM and JavaScript rendering are not modelled.
