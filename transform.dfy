/** `transform_data` (sora.py:99-109): the append loop that keeps the rows
    whose six fields are all truthy and whose date is not yet stored,
    followed by the comprehension that drops the rows holding a float NaN. */
module Transform {
  import opened Records
  import opened Seqs

  /** The test at sora.py:105. `not all(x) == False` parses as
      `not (all(x) == False)`, that is `all(x)`. The stored dates are read
      once, before the loop, so rows of the batch are not compared with
      each other. */
  predicate Passes(stored: seq<string>, r: Row)
  {
    AllTruthy(r) && r.date !in stored
  }

  /** The rows the loop appends to `cleaned_results`. */
  function FirstPass(batch: seq<Row>, stored: seq<string>): seq<Row>
  {
    Filter(r => Passes(stored, r), batch)
  }

  /** The comprehension at sora.py:108. */
  function DropNaN(rows: seq<Row>): seq<Row>
  {
    Filter(r => !HasNaN(r), rows)
  }

  /** What `transform_data(conn, results)` returns for a table holding
      `table` and a fetched batch `batch`. */
  function Cleaned(table: seq<Row>, batch: seq<Row>): seq<Row>
  {
    DropNaN(FirstPass(batch, Dates(table)))
  }

  /** A row survives both passes: clean, and of a date not yet stored. */
  predicate Admitted(stored: seq<string>, r: Row)
  {
    Clean(r) && r.date !in stored
  }

  /** The two passes are one order-preserving filter. */
  lemma CleanedIsOneFilter(table: seq<Row>, batch: seq<Row>)
    ensures Cleaned(table, batch) == Filter(r => Admitted(Dates(table), r), batch)
  {
    var stored := Dates(table);
    FilterOfFilter(r => Passes(stored, r), r => !HasNaN(r), r => Admitted(stored, r), batch);
  }

  /** A row is kept exactly when it is in the batch, all six fields are
      truthy, none is a NaN, and its date is not in the table: one bad field
      rejects the whole row. */
  lemma CleanedMembers(table: seq<Row>, batch: seq<Row>)
    ensures forall r :: r in Cleaned(table, batch) <==>
              r in batch && AllTruthy(r) && !HasNaN(r) && r.date !in Dates(table)
  {
    CleanedIsOneFilter(table, batch);
    FilterMembers(r => Admitted(Dates(table), r), batch);
  }

  /** The result keeps the fetched order: it is a subsequence of the batch. */
  lemma CleanedIsSubsequence(table: seq<Row>, batch: seq<Row>)
    ensures IsSubsequence(Cleaned(table, batch), batch)
  {
    CleanedIsOneFilter(table, batch);
    FilterIsSubsequence(r => Admitted(Dates(table), r), batch);
  }

  /** Every returned row is clean and new to the table. */
  lemma CleanedRowsAdmitted(table: seq<Row>, batch: seq<Row>)
    ensures AllClean(Cleaned(table, batch))
    ensures forall r :: r in Cleaned(table, batch) ==> r.date !in Dates(table)
  {
    CleanedMembers(table, batch);
    var c := Cleaned(table, batch);
    forall i | 0 <= i < |c|
      ensures Clean(c[i])
    {
      assert c[i] in c;
    }
  }

  /** A batch with distinct dates is returned with distinct dates: the
      cleaning stage removes no duplicate within the batch, but creates none
      either. */
  lemma CleanedKeepsDistinct(table: seq<Row>, batch: seq<Row>)
    requires DistinctDates(batch)
    ensures DistinctDates(Cleaned(table, batch))
  {
    CleanedIsOneFilter(table, batch);
    FilterKeepsDistinctDates(r => Admitted(Dates(table), r), batch);
  }

  /** When no row of the batch is admitted, nothing is returned. */
  lemma CleanedNothingAdmitted(table: seq<Row>, batch: seq<Row>)
    requires forall r :: r in batch && Clean(r) ==> r.date in Dates(table)
    ensures Cleaned(table, batch) == []
  {
    CleanedIsOneFilter(table, batch);
    FilterNone(r => Admitted(Dates(table), r), batch);
  }

  /** Into an empty table, a batch of clean rows is returned whole. */
  lemma CleanedAllClean(batch: seq<Row>)
    requires AllClean(batch)
    ensures Cleaned([], batch) == batch
  {
    CleanedIsOneFilter([], batch);
    forall r | r in batch
      ensures Admitted(Dates([]), r)
    {
      var i :| 0 <= i < |batch| && batch[i] == r;
    }
    FilterAll(r => Admitted(Dates([]), r), batch);
  }

  /** `transform_data`: read the stored dates, run the append loop over the
      batch, then drop the rows holding a NaN. */
  method TransformData(table: seq<Row>, results: seq<Row>) returns (cleaned: seq<Row>)
    ensures cleaned == Cleaned(table, results)
    ensures IsSubsequence(cleaned, results)
    ensures forall r :: r in cleaned <==>
              r in results && AllTruthy(r) && !HasNaN(r) && r.date !in Dates(table)
  {
    var allDateDb := Dates(table);
    var firstPass: seq<Row> := [];
    for i := 0 to |results|
      invariant firstPass == FirstPass(results[..i], allDateDb)
    {
      var row := results[i];
      assert results[..i + 1][..i] == results[..i];
      if AllTruthy(row) && row.date !in allDateDb {
        firstPass := firstPass + [row];
      }
    }
    assert results[..|results|] == results;
    cleaned := Filter(r => !HasNaN(r), firstPass);
    CleanedIsSubsequence(table, results);
    CleanedMembers(table, results);
  }
}
