/** One SORA observation as the cleaning stage sees it: the six columns of
    the `fields` table (sora.py:65-74), with the field values a pandas row
    can carry, and the Python truthiness the cleaning test applies. */
module Records {
  import opened Text
  import opened Seqs

  datatype Option<T> = None | Some(value: T)

  /** A rate field as read from a pandas row: absent (`None`), text, a
      number (an `int` or a `float`), or a float NaN. */
  datatype Value = Missing | Str(s: string) | Num(r: real) | NaN

  /** Python's `bool(v)`: `None`, the empty text and zero are false; every
      other text and number is true, and so is a float NaN. */
  predicate Truthy(v: Value)
  {
    match v
    case Missing => false
    case Str(s) => s != []
    case Num(r) => r != 0.0
    case NaN => true
  }

  /** `isinstance(v, float) and math.isnan(v)`: only a float NaN; the text
      "NaN" is not one. */
  predicate IsNaN(v: Value)
  {
    v.NaN?
  }

  /** A row `(end_of_day, sora, sora_index, comp_sora_1m, comp_sora_3m,
      comp_sora_6m)`. The date is ISO `YYYY-MM-DD` text; a date the source
      delivers as None or NaN is represented by the empty text, which the
      cleaning stage drops just as it drops those. */
  datatype Row = Row(date: string, sora: Value, soraIndex: Value,
                     comp1m: Value, comp3m: Value, comp6m: Value)

  /** `all(row)`: every one of the six fields is truthy. */
  predicate AllTruthy(r: Row)
  {
    r.date != [] && Truthy(r.sora) && Truthy(r.soraIndex)
    && Truthy(r.comp1m) && Truthy(r.comp3m) && Truthy(r.comp6m)
  }

  /** Some field of the row is a float NaN. */
  predicate HasNaN(r: Row)
  {
    IsNaN(r.sora) || IsNaN(r.soraIndex) || IsNaN(r.comp1m) || IsNaN(r.comp3m) || IsNaN(r.comp6m)
  }

  /** A row fit to be stored: no empty, zero or missing field and no NaN. */
  predicate Clean(r: Row)
  {
    AllTruthy(r) && !HasNaN(r)
  }

  predicate AllClean(rows: seq<Row>)
  {
    forall i :: 0 <= i < |rows| ==> Clean(rows[i])
  }

  /** The `end_of_day` column, in row order. */
  function Dates(rows: seq<Row>): (ds: seq<string>)
  {
    seq(|rows|, i requires 0 <= i < |rows| => rows[i].date)
  }

  /** No two rows share a date. */
  predicate DistinctDates(rows: seq<Row>)
  {
    forall i, j :: 0 <= i < j < |rows| ==> rows[i].date != rows[j].date
  }

  /** Dates strictly ascending in text order, as `sort=end_of_day asc`
      returns them from a collection with one record per date. */
  predicate SortedDates(rows: seq<Row>)
  {
    forall i, j :: 0 <= i < j < |rows| ==> LexLt(rows[i].date, rows[j].date)
  }

  /** `SELECT max(end_of_day)`: the greatest date under text order, or
      `None` (SQL NULL) for an empty table. */
  function MaxDate(rows: seq<Row>): Option<string>
  {
    if rows == [] then None
    else match MaxDate(rows[1..])
      case None => Some(rows[0].date)
      case Some(m) => Some(if LexLe(rows[0].date, m) then m else rows[0].date)
  }

  lemma DateMember(rows: seq<Row>, r: Row)
    requires r in rows
    ensures r.date in Dates(rows)
  {
    var i :| 0 <= i < |rows| && rows[i] == r;
    assert Dates(rows)[i] == r.date;
  }

  /** The maximum is absent exactly for the empty table; otherwise it is one
      of the table's dates and no date exceeds it. */
  lemma {:induction false} MaxDateIsMax(rows: seq<Row>)
    ensures MaxDate(rows).None? <==> rows == []
    ensures MaxDate(rows).Some? ==> MaxDate(rows).value in Dates(rows)
    ensures MaxDate(rows).Some? ==>
              forall i :: 0 <= i < |rows| ==> LexLe(rows[i].date, MaxDate(rows).value)
  {
    if rows != [] {
      var tail := rows[1..];
      MaxDateIsMax(tail);
      var d := rows[0].date;
      match MaxDate(tail)
      case None =>
        LexLeRefl(d);
        assert Dates(rows)[0] == d;
      case Some(m) =>
        var i0 :| 0 <= i0 < |tail| && Dates(tail)[i0] == m;
        assert Dates(rows)[i0 + 1] == m;
        assert Dates(rows)[0] == d;
        LexLeTotal(d, m);
        LexLeRefl(d);
        LexLeRefl(m);
        forall i | 0 <= i < |rows|
          ensures LexLe(rows[i].date, MaxDate(rows).value)
        {
          if i > 0 {
            assert rows[i] == tail[i - 1];
            if !LexLe(d, m) {
              LexLeTrans(rows[i].date, m, d);
            }
          }
        }
    }
  }

  /** Filtering keeps dates distinct. */
  lemma {:induction false} FilterKeepsDistinctDates(f: Row -> bool, rows: seq<Row>)
    requires DistinctDates(rows)
    ensures DistinctDates(Filter(f, rows))
  {
    if rows != [] {
      var init, last := rows[..|rows| - 1], rows[|rows| - 1];
      FilterKeepsDistinctDates(f, init);
      FilterMembers(f, init);
      var r := Filter(f, rows);
      var fi := Filter(f, init);
      if f(last) {
        forall i, j | 0 <= i < j < |r|
          ensures r[i].date != r[j].date
        {
          if j == |r| - 1 {
            assert r[i] == fi[i] && fi[i] in init;
            var k :| 0 <= k < |init| && init[k] == fi[i];
            assert rows[k] == init[k];
          } else {
            assert r[i] == fi[i] && r[j] == fi[j];
          }
        }
      }
    }
  }

  /** Filtering keeps dates ascending. */
  lemma {:induction false} FilterKeepsSorted(f: Row -> bool, rows: seq<Row>)
    requires SortedDates(rows)
    ensures SortedDates(Filter(f, rows))
  {
    if rows != [] {
      var init, last := rows[..|rows| - 1], rows[|rows| - 1];
      FilterKeepsSorted(f, init);
      FilterMembers(f, init);
      var r := Filter(f, rows);
      var fi := Filter(f, init);
      if f(last) {
        forall i, j | 0 <= i < j < |r|
          ensures LexLt(r[i].date, r[j].date)
        {
          if j == |r| - 1 {
            assert r[i] == fi[i] && fi[i] in init;
            var k :| 0 <= k < |init| && init[k] == fi[i];
            assert rows[k] == init[k];
          } else {
            assert r[i] == fi[i] && r[j] == fi[j];
          }
        }
      }
    }
  }

  /** Appending rows with fresh, distinct dates keeps the dates distinct. */
  lemma DistinctAppend(table: seq<Row>, batch: seq<Row>)
    requires DistinctDates(table) && DistinctDates(batch)
    requires forall r :: r in batch ==> r.date !in Dates(table)
    ensures DistinctDates(table + batch)
  {
    var all := table + batch;
    forall i, j | 0 <= i < j < |all|
      ensures all[i].date != all[j].date
    {
      if i < |table| && j >= |table| {
        assert all[j] == batch[j - |table|];
        assert all[i].date == Dates(table)[i];
      }
    }
  }
}
