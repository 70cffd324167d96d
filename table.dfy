/**
 * The records as a pandas DataFrame, and `clean_car_data`: coerce the price
 * and year columns to numbers (unparseable or missing values become 0, the
 * year is then cast to an integer) and drop the rows that still hold a
 * missing value.
 */
module Table {
  import opened Wrappers
  import opened PyText
  import opened Extract

  /** A DataFrame cell: a string, a number, or missing (NaN or None). */
  datatype Cell = Str(s: string) | Num(x: real) | Missing

  /** A DataFrame row, one cell per column of the table. */
  datatype Row = Row(name: Cell, price: Cell, location: Cell, year: Cell)

  /** The row `pd.DataFrame(car_data)` makes of one record: a clean row
      that keeps every field of the record. */
  function ToRow(r: Record): (row: Row)
    ensures IsCleanRow(row)
  {
    Row(Str(r.name), Num(r.price), Str(r.location), Num(r.year as real))
  }

  /** Distinct records give distinct rows: the table loses no field. */
  lemma ToRowInjective(a: Record, b: Record)
    ensures ToRow(a) == ToRow(b) <==> a == b
  {
  }

  function ToRows(rs: seq<Record>): (t: seq<Row>)
    ensures |t| == |rs|
    ensures forall i :: 0 <= i < |rs| ==> t[i] == ToRow(rs[i])
  {
    seq(|rs|, i requires 0 <= i < |rs| => ToRow(rs[i]))
  }

  // Coercion of one cell.

  /** `pd.to_numeric(..., errors='coerce')` on one cell: the number, or
      `None` (NaN) when there is none. */
  function ToNumeric(c: Cell): (r: Option<real>)
    ensures c.Num? ==> r == Some(c.x)
    ensures c.Missing? ==> r.None?
    ensures c.Str? ==> (r.Some? <==> IsFloatText(FloatStrip(c.s)))
  {
    match c
    case Num(x) => Some(x)
    case Str(s) => ParseFloatAccepts(s); ParseFloat(s)
    case Missing => None
  }

  /** `.fillna(0)` after `to_numeric`. */
  function NumericOrZero(c: Cell): (x: real)
    ensures c.Num? ==> x == c.x
    ensures c.Missing? ==> x == 0.0
    ensures c.Str? && !IsFloatText(FloatStrip(c.s)) ==> x == 0.0
  {
    match ToNumeric(c)
    case Some(x) => x
    case None => 0.0
  }

  predicate IsIntegral(x: real) {
    x.Floor as real == x
  }

  /** `.astype(int)`: truncation toward zero. */
  function Truncate(x: real): (n: int)
    ensures 0.0 <= x ==> n as real <= x < n as real + 1.0
    ensures x < 0.0 ==> n as real - 1.0 < x <= n as real
    ensures IsIntegral(x) ==> n as real == x
  {
    if x >= 0.0 then x.Floor
    else
      var m := (-x).Floor;
      assert m as real <= -x < m as real + 1.0;
      assert IsIntegral(x) ==> m == -x.Floor by {
        if IsIntegral(x) {
          assert -x == (-x.Floor) as real;
        }
      }
      -m
  }

  /** The new price cell: always a number; a number stays as it is, and a
      missing value or a text `float` does not accept becomes 0. */
  function CoercePrice(c: Cell): (r: Cell)
    ensures r.Num?
    ensures c.Num? ==> r == c
    ensures c.Missing? ==> r == Num(0.0)
    ensures c.Str? && !IsFloatText(FloatStrip(c.s)) ==> r == Num(0.0)
  {
    Num(NumericOrZero(c))
  }

  /** The new year cell: always a whole number; a whole number stays as it
      is, and a missing value or a text `float` rejects becomes 0. */
  function CoerceYear(c: Cell): (r: Cell)
    ensures r.Num? && IsIntegral(r.x)
    ensures c.Num? && IsIntegral(c.x) ==> r == c
    ensures c.Missing? ==> r == Num(0.0)
    ensures c.Str? && !IsFloatText(FloatStrip(c.s)) ==> r == Num(0.0)
  {
    Num(Truncate(NumericOrZero(c)) as real)
  }

  /** The row after the two coercions: name and location untouched, so the
      row is clean exactly when both are present. */
  function CoerceRow(r: Row): (u: Row)
    ensures u.name == r.name && u.location == r.location
    ensures IsCleanRow(u) <==> !r.name.Missing? && !r.location.Missing?
  {
    Row(r.name, CoercePrice(r.price), r.location, CoerceYear(r.year))
  }

  function CoerceRows(t: seq<Row>): (u: seq<Row>)
    ensures |u| == |t|
    ensures forall i :: 0 <= i < |t| ==> u[i] == CoerceRow(t[i])
  {
    seq(|t|, i requires 0 <= i < |t| => CoerceRow(t[i]))
  }

  // Dropping rows with missing values.

  predicate HasMissing(r: Row) {
    r.name.Missing? || r.price.Missing? || r.location.Missing? || r.year.Missing?
  }

  /** `df.dropna()`: the rows without a missing value, in their order. */
  function DropNa(t: seq<Row>): (u: seq<Row>)
    ensures |u| <= |t|
    ensures forall r :: r in u <==> r in t && !HasMissing(r)
  {
    if t == [] then []
    else (if HasMissing(t[0]) then [] else [t[0]]) + DropNa(t[1..])
  }

  /** A row the cleaning leaves as it is: name and location present, price a
      number and year a whole number. */
  predicate IsCleanRow(r: Row) {
    && !r.name.Missing?
    && r.price.Num?
    && !r.location.Missing?
    && r.year.Num? && IsIntegral(r.year.x)
  }

  /** `clean_car_data` on the table's value. */
  function Clean(t: seq<Row>): (u: seq<Row>)
    ensures |u| <= |t|
    ensures t == [] ==> u == []
    ensures forall r :: r in u ==> IsCleanRow(r)
  {
    if |t| == 0 then t
    else DropNa(CoerceRows(t))
  }

  // Properties of the cleaning.

  lemma {:induction false} DropNaAppend(a: seq<Row>, b: seq<Row>)
    ensures DropNa(a + b) == DropNa(a) + DropNa(b)
  {
    if a == [] {
      assert a + b == b;
    } else {
      assert (a + b)[1..] == a[1..] + b;
      DropNaAppend(a[1..], b);
    }
  }

  /** Cleaning works row by row, so it keeps the rows' order, and a row is
      dropped exactly when its name or location is missing: no price filter
      is applied, a zero or negative price stays. */
  lemma CleanAppend(a: seq<Row>, b: seq<Row>)
    ensures Clean(a + b) == Clean(a) + Clean(b)
  {
    if a == [] {
      assert a + b == b;
    } else if b == [] {
      assert a + b == a;
    } else {
      assert CoerceRows(a + b) == CoerceRows(a) + CoerceRows(b);
      DropNaAppend(CoerceRows(a), CoerceRows(b));
    }
  }

  /** What cleaning does to one row. */
  lemma CleanOneRow(r: Row)
    ensures r.name.Missing? || r.location.Missing? ==> Clean([r]) == []
    ensures !r.name.Missing? && !r.location.Missing? ==> Clean([r]) == [CoerceRow(r)]
  {
    assert CoerceRows([r]) == [CoerceRow(r)];
    assert [CoerceRow(r)][1..] == [];
  }

  /** A price `to_numeric` cannot read becomes 0 rather than dropping the row. */
  lemma UnreadablePriceBecomesZero(r: Row)
    requires !r.name.Missing? && !r.location.Missing?
    requires ToNumeric(r.price).None?
    ensures |Clean([r])| == 1 && Clean([r])[0].price == Num(0.0)
  {
    CleanOneRow(r);
  }

  /** A text cell holding a decimal, with a sign or without and with white
      space around it, becomes the number it spells. */
  lemma DecimalPriceCellIsRead(pad: string, sign: string, w: string, f: string, pad': string)
    requires AllSpaceIn(FloatSpaces, pad) && AllSpaceIn(FloatSpaces, pad')
    requires IsSign(sign) && AllDigits(w) && AllDigits(f) && |w| + |f| > 0
    ensures CoercePrice(Str(pad + sign + w + "." + f + pad')) == Num(Signed(sign, DecimalValue(w, f)))
  {
    ParseFloatOfDecimal(pad, sign, w, f, pad');
  }

  /** A text cell holding digits, with a sign or without and with white
      space around them, becomes that integer. */
  lemma DigitPriceCellIsRead(pad: string, sign: string, d: string, pad': string)
    requires AllSpaceIn(FloatSpaces, pad) && AllSpaceIn(FloatSpaces, pad')
    requires IsSign(sign) && IsDigits(d)
    ensures CoercePrice(Str(pad + sign + d + pad')) == Num(Signed(sign, DigitsValue(d) as real))
  {
    ParseFloatOfDigits(pad, sign, d, pad');
  }

  /** A clean row is left exactly as it is. */
  lemma CoerceCleanRow(r: Row)
    requires IsCleanRow(r)
    ensures CoerceRow(r) == r
  {
  }

  /** A table whose rows are all clean is returned unchanged. */
  lemma {:induction false} CleanFixesCleanTables(t: seq<Row>)
    requires forall r :: r in t ==> IsCleanRow(r)
    ensures Clean(t) == t
  {
    if t != [] {
      CleanFixesCleanTables(t[1..]);
      CleanOneRow(t[0]);
      CoerceCleanRow(t[0]);
      assert t == [t[0]] + t[1..];
      CleanAppend([t[0]], t[1..]);
    }
  }

  /** Cleaning twice is cleaning once. */
  lemma CleanIdempotent(t: seq<Row>)
    ensures Clean(Clean(t)) == Clean(t)
  {
    CleanFixesCleanTables(Clean(t));
  }

  /** The table the fetchers build is already clean: its prices are numbers
      and its years whole numbers, so `clean_car_data` changes nothing. */
  lemma ExtractedTablesAreClean(rs: seq<Record>)
    ensures Clean(ToRows(rs)) == ToRows(rs)
  {
    forall r | r in ToRows(rs) ensures IsCleanRow(r) {
      var i :| 0 <= i < |rs| && ToRows(rs)[i] == r;
      assert (rs[i].year as real).Floor == rs[i].year;
    }
    CleanFixesCleanTables(ToRows(rs));
  }

  // The DataFrame object.

  function Names(t: seq<Row>): seq<Cell> { seq(|t|, i requires 0 <= i < |t| => t[i].name) }
  function Prices(t: seq<Row>): seq<Cell> { seq(|t|, i requires 0 <= i < |t| => t[i].price) }
  function Locations(t: seq<Row>): seq<Cell> { seq(|t|, i requires 0 <= i < |t| => t[i].location) }
  function Years(t: seq<Row>): seq<Cell> { seq(|t|, i requires 0 <= i < |t| => t[i].year) }

  /** The rows of four columns of one length. */
  function Zip(name: seq<Cell>, price: seq<Cell>, location: seq<Cell>, year: seq<Cell>): (t: seq<Row>)
    requires |price| == |name| && |location| == |name| && |year| == |name|
    ensures |t| == |name|
    ensures forall i :: 0 <= i < |t| ==> t[i] == Row(name[i], price[i], location[i], year[i])
  {
    seq(|name|, i requires 0 <= i < |name| => Row(name[i], price[i], location[i], year[i]))
  }

  /** A DataFrame with the columns name, price, location and year, which
      `clean_car_data` updates in place. */
  class Frame {
    var name: seq<Cell>
    var price: seq<Cell>
    var location: seq<Cell>
    var year: seq<Cell>

    ghost predicate Valid()
      reads this
    {
      |price| == |name| && |location| == |name| && |year| == |name|
    }

    function Rows(): (t: seq<Row>)
      reads this
      requires Valid()
      ensures |t| == |name|
    {
      Zip(name, price, location, year)
    }

    /** `df.empty` */
    function Empty(): (b: bool)
      reads this
      ensures Valid() ==> (b <==> Rows() == [])
    {
      |name| == 0
    }

    /** `pd.DataFrame(rows)` */
    constructor (rows: seq<Row>)
      ensures Valid() && Rows() == rows
    {
      name, price, location, year := Names(rows), Prices(rows), Locations(rows), Years(rows);
      new;
      assert Zip(name, price, location, year) == rows;
    }
  }

  /** `clean_car_data(df)`: an empty frame is returned as it is; otherwise the
      price and year columns of `df` are overwritten in place and `dropna`
      gives a new frame. */
  method CleanCarData(df: Frame) returns (out: Frame)
    requires df.Valid()
    modifies df
    ensures out.Valid() && out.Rows() == Clean(old(df.Rows()))
    ensures old(df.Empty()) ==> out == df && unchanged(df)
    ensures !old(df.Empty()) ==> fresh(out) && df.Valid() && df.Rows() == CoerceRows(old(df.Rows()))
  {
    if df.Empty() {
      return df;
    }
    df.price := seq(|df.price|, i requires 0 <= i < |df.price| reads df => CoercePrice(df.price[i]));
    df.year := seq(|df.year|, i requires 0 <= i < |df.year| reads df => CoerceYear(df.year[i]));
    assert df.Rows() == CoerceRows(old(df.Rows()));
    out := new Frame(DropNa(df.Rows()));
  }
}
