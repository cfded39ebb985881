/** The query `build_sidebar` runs (sora.py:162):
    `SELECT end_of_day, sora, sora_index[, chosen composites] FROM fields
     WHERE end_of_day BETWEEN Y1 AND Y2+1`.
    The column has TEXT affinity, so SQLite compares the two integer
    literals as the texts `str(Y1)` and `str(Y2+1)`. */
module Query {
  import opened Records
  import opened Text
  import opened Seqs

  /** The optional columns the user may pick (sora.py:154). */
  datatype Composite = Comp1m | Comp3m | Comp6m

  /** A result row: the three mandatory columns, then the chosen ones. */
  datatype Projected = Projected(date: string, sora: Value, soraIndex: Value, extra: seq<Value>)

  /** The WHERE clause: `str(y1) <= date <= str(y2 + 1)` as text. */
  predicate InYearRange(y1: nat, y2: nat, date: string)
  {
    LexLe(NatToString(y1), date) && LexLe(date, NatToString(y2 + 1))
  }

  function Column(r: Row, c: Composite): Value
  {
    match c
    case Comp1m => r.comp1m
    case Comp3m => r.comp3m
    case Comp6m => r.comp6m
  }

  function Project(r: Row, cols: seq<Composite>): Projected
  {
    Projected(r.date, r.sora, r.soraIndex, seq(|cols|, i requires 0 <= i < |cols| => Column(r, cols[i])))
  }

  function ProjectAll(rows: seq<Row>, cols: seq<Composite>): seq<Projected>
  {
    seq(|rows|, i requires 0 <= i < |rows| => Project(rows[i], cols))
  }

  /** The rows the query returns, in table order. */
  function SelectYears(table: seq<Row>, y1: nat, y2: nat, cols: seq<Composite>): seq<Projected>
  {
    ProjectAll(Filter((r: Row) => InYearRange(y1, y2, r.date), table), cols)
  }

  /** An ISO `YYYY-MM-DD` date. */
  predicate IsoDate(d: string)
  {
    |d| == 10 && AllDigits(d[..4]) && d[4] == '-' && AllDigits(d[5..7])
    && d[7] == '-' && AllDigits(d[8..])
  }

  function YearOf(d: string): nat
    requires IsoDate(d)
  {
    DigitsValue(d[..4])
  }

  /** The year of an ISO date lies in `[y1, y2]`. */
  predicate YearIn(y1: nat, y2: nat, d: string)
  {
    IsoDate(d) && y1 <= YearOf(d) <= y2
  }

  /** The "+1" trick: for an ISO date and four-digit bounds, the text test
      holds exactly when the date's year is between `y1` and `y2`. The
      upper bound `str(y2 + 1)` is a four-digit prefix that every date of
      year `y2` is below and every date of year `y2 + 1` is above. */
  lemma YearRangeExact(y1: nat, y2: nat, d: string)
    requires IsoDate(d) && 1000 <= y1 <= 9999 && 999 <= y2 < 9999
    ensures InYearRange(y1, y2, d) <==> y1 <= YearOf(d) <= y2
  {
    var lower, upper := NatToString(y1), NatToString(y2 + 1);
    var year := d[..4];
    FourDigitSpelling(y1);
    LexLeShortLong(lower, d);
    LexLeDigits(lower, year);
    NatToStringValue(y1);
    FourDigitSpelling(y2 + 1);
    LexLeLongShort(d, upper);
    LexLtIsNotLe(year, upper);
    LexLeDigits(upper, year);
    NatToStringValue(y2 + 1);
  }

  /** Over a table of ISO dates and four-digit bounds, the query returns
      exactly the rows whose year is in `[y1, y2]`, in table order,
      projected onto the mandatory and the chosen columns. */
  lemma SelectYearsExact(table: seq<Row>, y1: nat, y2: nat, cols: seq<Composite>)
    requires forall i :: 0 <= i < |table| ==> IsoDate(table[i].date)
    requires 1000 <= y1 <= 9999 && 999 <= y2 < 9999
    ensures SelectYears(table, y1, y2, cols) ==
              ProjectAll(Filter((r: Row) => YearIn(y1, y2, r.date), table), cols)
  {
    forall r | r in table
      ensures InYearRange(y1, y2, r.date) == YearIn(y1, y2, r.date)
    {
      YearRangeExact(y1, y2, r.date);
    }
    FilterCongruent((r: Row) => InYearRange(y1, y2, r.date), (r: Row) => YearIn(y1, y2, r.date), table);
  }

  /** Over a table in ascending date order, the query's rows come back in
      ascending date order. */
  lemma SelectYearsAscending(table: seq<Row>, y1: nat, y2: nat, cols: seq<Composite>)
    requires SortedDates(table)
    ensures var result := SelectYears(table, y1, y2, cols);
            forall i, j :: 0 <= i < j < |result| ==> LexLt(result[i].date, result[j].date)
  {
    FilterKeepsSorted((r: Row) => InYearRange(y1, y2, r.date), table);
  }
}
