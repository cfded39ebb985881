/** The `fields` table and the synchronisation of `load_db`
    (sora.py:64-75, 112-129): probe the newest remote date, compare it with
    the table's newest date, fetch what is missing, clean it and append it. */
module Store {
  import opened Records
  import opened Text
  import opened Seqs
  import opened Remote
  import opened Transform

  /** What `load_db` decides to fetch (sora.py:120-125). */
  datatype Plan = FullFetch | RangeFetch(lo: string, hi: string) | UpToDate

  /** How a call of `load_db` ends. `NoTable` and `NoSourceData` stand for
      the exceptions the source raises when the table is missing or the
      probe returns no record; in both the table is not written. */
  datatype LoadOutcome = NoTable | NoSourceData | AlreadyCurrent | Appended(count: nat)

  /** The decision: no stored row means an unrestricted fetch; a stored
      newest date below the remote one means a fetch of the inclusive range
      between them; otherwise nothing is fetched. */
  function Decide(dbMax: Option<string>, latestApi: string): Plan
  {
    match dbMax
    case None => FullFetch
    case Some(m) => if LexLt(m, latestApi) then RangeFetch(m, latestApi) else UpToDate
  }

  /** The request parameters a fetching plan sends. */
  function RangeOf(plan: Plan): Range
    requires !plan.UpToDate?
  {
    match plan
    case FullFetch => Unrestricted
    case RangeFetch(lo, hi) => Between(lo, hi)
  }

  /** The table after one successful `load_db` against `server`, when the
      table exists. The probe (`sort=end_of_day desc`, first record) reads
      the newest remote date. */
  function Synced(table: seq<Row>, server: Server): seq<Row>
  {
    match MaxDate(server.records)
    case None => table
    case Some(latest) =>
      var plan := Decide(MaxDate(table), latest);
      if plan.UpToDate? then table
      else table + Cleaned(table, Matching(server, RangeOf(plan)))
  }

  /** The three branches of the decision, stated with the text order `<=`:
      a fetch happens exactly when the table is empty or strictly behind. */
  lemma DecideCases(dbMax: Option<string>, latestApi: string)
    ensures Decide(dbMax, latestApi) == FullFetch <==> dbMax.None?
    ensures Decide(dbMax, latestApi).RangeFetch? <==>
              dbMax.Some? && !LexLe(latestApi, dbMax.value)
    ensures Decide(dbMax, latestApi).RangeFetch? ==>
              Decide(dbMax, latestApi) == RangeFetch(dbMax.value, latestApi)
    ensures Decide(dbMax, latestApi) == UpToDate <==>
              dbMax.Some? && LexLe(latestApi, dbMax.value)
  {
    if dbMax.Some? {
      LexLtIsNotLe(dbMax.value, latestApi);
    }
  }

  /** The sync only ever appends: the old rows are a prefix of the new
      table, and the appended rows are clean and of dates not stored before. */
  lemma SyncedAppendsCleanRows(table: seq<Row>, server: Server)
    ensures table <= Synced(table, server)
    ensures forall i :: |table| <= i < |Synced(table, server)| ==>
              Clean(Synced(table, server)[i])
              && Synced(table, server)[i].date !in Dates(table)
              && Synced(table, server)[i] in server.records
  {
    var s := Synced(table, server);
    if |s| > |table| {
      var latest := MaxDate(server.records).value;
      var plan := Decide(MaxDate(table), latest);
      var batch := Matching(server, RangeOf(plan));
      CleanedRowsAdmitted(table, batch);
      CleanedMembers(table, batch);
      MatchingMembers(server, RangeOf(plan));
      forall i | |table| <= i < |s|
        ensures Clean(s[i]) && s[i].date !in Dates(table) && s[i] in server.records
      {
        assert s[i] == Cleaned(table, batch)[i - |table|];
      }
    }
  }

  /** A table of clean rows stays clean. */
  lemma SyncedKeepsClean(table: seq<Row>, server: Server)
    requires AllClean(table)
    ensures AllClean(Synced(table, server))
  {
    SyncedAppendsCleanRows(table, server);
  }

  /** No duplicate dates: when the table's dates and the remote dates are
      distinct, so are the dates after the sync. In a bounded fetch the row
      of the lower bound comes back and is dropped as already stored. */
  lemma {:induction false} SyncedNoDuplicateDates(table: seq<Row>, server: Server)
    requires DistinctDates(table) && DistinctDates(server.records)
    ensures DistinctDates(Synced(table, server))
  {
    match MaxDate(server.records)
    case None =>
    case Some(latest) =>
      var plan := Decide(MaxDate(table), latest);
      if !plan.UpToDate? {
        var range := RangeOf(plan);
        var batch := Matching(server, range);
        FilterKeepsDistinctDates(r => InRange(range, r), server.records);
        CleanedKeepsDistinct(table, batch);
        CleanedRowsAdmitted(table, batch);
        DistinctAppend(table, Cleaned(table, batch));
      }
  }

  /** In a bounded fetch the lower bound is the stored newest date, and no
      appended row carries it. */
  lemma RefetchedBoundDropped(table: seq<Row>, server: Server)
    requires MaxDate(table).Some?
    ensures forall i :: |table| <= i < |Synced(table, server)| ==>
              Synced(table, server)[i].date != MaxDate(table).value
  {
    MaxDateIsMax(table);
    SyncedAppendsCleanRows(table, server);
  }

  /** When the remote newest date has not moved past the stored newest
      date, the sync leaves the table as it was. */
  lemma NoOpWhenCurrent(table: seq<Row>, server: Server)
    requires MaxDate(table).Some? && MaxDate(server.records).Some?
    requires LexLe(MaxDate(server.records).value, MaxDate(table).value)
    ensures Synced(table, server) == table
  {
    DecideCases(MaxDate(table), MaxDate(server.records).value);
  }

  /** Catch-up completeness: into an empty table, a source whose records are
      all clean is copied whole, in order, across however many pages. */
  lemma FullCatchUp(server: Server)
    requires AllClean(server.records)
    ensures Synced([], server) == server.records
  {
    MaxDateIsMax(server.records);
    FilterAll(r => InRange(Unrestricted, r), server.records);
    CleanedAllClean(server.records);
  }

  /** The table stays in ascending date order: the fetch is sorted
      ascending, and in a bounded fetch every appended date lies above the
      stored newest date, which is itself dropped as already stored. With no
      `ORDER BY`, this is the order the year query returns rows in. */
  lemma SyncedKeepsSorted(table: seq<Row>, server: Server)
    requires SortedDates(table) && SortedDates(server.records)
    ensures SortedDates(Synced(table, server))
  {
    var s := Synced(table, server);
    if |s| > |table| {
      var latest := MaxDate(server.records).value;
      var plan := Decide(MaxDate(table), latest);
      var range := RangeOf(plan);
      var batch := Matching(server, range);
      var added := Cleaned(table, batch);
      assert s == table + added;
      FilterKeepsSorted(r => InRange(range, r), server.records);
      CleanedIsOneFilter(table, batch);
      FilterKeepsSorted(r => Admitted(Dates(table), r), batch);
      CleanedMembers(table, batch);
      MatchingMembers(server, range);
      MaxDateIsMax(table);
      forall i, j | 0 <= i < j < |s|
        ensures LexLt(s[i].date, s[j].date)
      {
        if i < |table| && |table| <= j {
          var t, r := s[i], s[j];
          assert t == table[i] && r == added[j - |table|];
          assert r in added;
          assert Dates(table)[i] == t.date;
          // The table is non-empty, so the plan is a bounded fetch from its
          // newest date m, and m <= r.date by the inclusive lower bound.
          var m := MaxDate(table).value;
          assert plan == RangeFetch(m, latest);
          LexLeTrans(t.date, m, r.date);
          LexLtIsNotLe(t.date, r.date);
          if LexLe(r.date, t.date) {
            LexLeAntisym(t.date, r.date);
          }
        } else if |table| <= i {
          assert s[i] == added[i - |table|] && s[j] == added[j - |table|];
        }
      }
    }
  }

  /** Every admitted record of the range fetched by a second sync is already
      in the table after the first. */
  lemma SecondFetchFindsNothingNew(table: seq<Row>, server: Server, latest: string)
    requires MaxDate(server.records) == Some(latest)
    requires !Decide(MaxDate(table), latest).UpToDate?
    requires MaxDate(Synced(table, server)).Some?
    ensures var t1 := Synced(table, server);
            forall r :: r in Matching(server, Between(MaxDate(t1).value, latest)) && Clean(r)
              ==> r.date in Dates(t1)
  {
    var t1 := Synced(table, server);
    var m1 := MaxDate(t1).value;
    var plan := Decide(MaxDate(table), latest);
    var batch := Matching(server, RangeOf(plan));
    assert t1 == table + Cleaned(table, batch);
    assert Dates(t1) == Dates(table) + Dates(Cleaned(table, batch));
    CleanedMembers(table, batch);
    MatchingMembers(server, Between(m1, latest));
    MatchingMembers(server, RangeOf(plan));
    forall r | r in Matching(server, Between(m1, latest)) && Clean(r)
      ensures r.date in Dates(t1)
    {
      if r.date !in Dates(table) {
        if plan.RangeFetch? {
          MaxDateIsMax(table);
          MaxDateIsMax(t1);
          var m := MaxDate(table).value;
          var k :| 0 <= k < |table| && table[k].date == m;
          assert t1[k] == table[k];
          NarrowerRangeSelectsFewer(server, m, m1, latest, r);
        }
        assert r in Cleaned(table, batch);
        DateMember(Cleaned(table, batch), r);
      }
    }
  }

  /** Idempotence: a second sync against the same remote collection leaves
      the table unchanged, also when the newest remote rows were rejected
      and the second sync fetches them again. */
  lemma {:induction false} SyncedIdempotent(table: seq<Row>, server: Server)
    ensures Synced(Synced(table, server), server) == Synced(table, server)
  {
    match MaxDate(server.records)
    case None =>
    case Some(latest) =>
      var t1 := Synced(table, server);
      var plan := Decide(MaxDate(table), latest);
      if !plan.UpToDate? {
        if t1 == [] {
          // Nothing was stored before or after: the second sync repeats the
          // first, against an empty table, and finds nothing to keep.
          assert table == [];
        } else {
          MaxDateIsMax(t1);
          var m1 := MaxDate(t1).value;
          var plan1 := Decide(MaxDate(t1), latest);
          if plan1.RangeFetch? {
            SecondFetchFindsNothingNew(table, server, latest);
            CleanedNothingAdmitted(t1, Matching(server, Between(m1, latest)));
          }
        }
      }
  }

  /** The SQLite database behind the connection: whether the `fields` table
      exists, and its rows in insertion order. */
  class Database {
    var tableExists: bool
    var fields: seq<Row>

    ghost predicate Valid()
      reads this
    {
      (!tableExists ==> fields == []) && AllClean(fields)
    }

    /** A connection to a database file without the table. */
    constructor ()
      ensures Valid() && !tableExists && fields == []
    {
      tableExists := false;
      fields := [];
    }

    /** `init_db`: `CREATE TABLE IF NOT EXISTS` creates an empty table the
        first time and leaves an existing table and its rows alone. */
    method InitDb()
      requires Valid()
      modifies this
      ensures Valid() && tableExists
      ensures fields == old(fields)
    {
      tableExists := true;
    }

    /** `load_db`. */
    method Load(server: Server) returns (outcome: LoadOutcome)
      requires Valid()
      modifies this
      ensures Valid() && tableExists == old(tableExists)
      ensures old(fields) <= fields
      ensures fields == (if old(tableExists) then Synced(old(fields), server) else old(fields))
      ensures outcome == NoTable <==> !old(tableExists)
      ensures outcome == NoSourceData <==> old(tableExists) && server.records == []
      ensures outcome == AlreadyCurrent <==>
                old(tableExists) && MaxDate(server.records).Some?
                && Decide(MaxDate(old(fields)), MaxDate(server.records).value) == UpToDate
      ensures outcome.Appended? ==> |fields| == |old(fields)| + outcome.count
    {
      if !tableExists {
        return NoTable;
      }
      var latestApi := MaxDate(server.records);
      MaxDateIsMax(server.records);
      if latestApi.None? {
        return NoSourceData;
      }
      var latestDb := MaxDate(fields);
      var plan := Decide(latestDb, latestApi.value);
      if plan.UpToDate? {
        return AlreadyCurrent;
      }
      var results, _ := Extract(server, RangeOf(plan));
      var dataset := TransformData(fields, results);
      SyncedKeepsClean(fields, server);
      fields := fields + dataset;
      outcome := Appended(|dataset|);
    }
  }
}
