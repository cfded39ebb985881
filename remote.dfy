/** The remote data service and the paginated retrieval of `extract_data`
    (sora.py:78-96). The HTTP request, the JSON decoding and the shared
    parameter dictionary are replaced by an explicit request: a date range
    and an offset, answered from a fixed server-side collection. */
module Remote {
  import opened Records
  import opened Text
  import opened Seqs

  /** The largest number of records one response carries, and the step the
      offset advances by (sora.py:79, 94). */
  const PageStep: nat := 100

  /** The remote collection, in the order `sort=end_of_day asc` returns it. */
  datatype Server = Server(records: seq<Row>)

  /** The `between[end_of_day]` parameter: absent, or inclusive text bounds. */
  datatype Range = Unrestricted | Between(lo: string, hi: string)

  /** One response: `result.records` and `result.total`. */
  datatype Response = Response(records: seq<Row>, total: nat)

  predicate InRange(range: Range, r: Row)
  {
    match range
    case Unrestricted => true
    case Between(lo, hi) => LexLe(lo, r.date) && LexLe(r.date, hi)
  }

  /** Every record the query selects, in ascending order. */
  function Matching(server: Server, range: Range): seq<Row>
  {
    Filter(r => InRange(range, r), server.records)
  }

  /** The answer to one request: the selected records at positions
      `[offset, offset + 100)`, and how many records the query selects. */
  function Fetch(server: Server, range: Range, offset: nat): (resp: Response)
    ensures resp.total == |Matching(server, range)|
    ensures offset < resp.total ==>
              resp.records == Matching(server, range)[offset..Min(offset + PageStep, resp.total)]
    ensures resp.total <= offset ==> resp.records == []
  {
    var m := Matching(server, range);
    var lo := Min(offset, |m|);
    Response(m[lo..Min(offset + PageStep, |m|)], |m|)
  }

  function Min(a: nat, b: nat): nat
  {
    if a <= b then a else b
  }

  /** `max(1, ceil(total / 100))`: how many requests `extract_data` makes. */
  function RequestCount(total: nat): nat
  {
    if total == 0 then 1 else (total + PageStep - 1) / PageStep
  }

  /** `extract_data`: one request without an offset, then one request per
      further offset 100, 200, ... while the offset is below the reported
      total, concatenating the pages in fetch order. `offsets` records the
      offset of every request made, the first one being 0. */
  method Extract(server: Server, range: Range) returns (results: seq<Row>, offsets: seq<nat>)
    ensures results == Matching(server, range)
    ensures |offsets| == RequestCount(|Matching(server, range)|)
    ensures forall i :: 0 <= i < |offsets| ==> offsets[i] == PageStep * i
    ensures forall i :: 0 < i < |offsets| ==> offsets[i] < |Matching(server, range)|
  {
    ghost var m := Matching(server, range);
    var first := Fetch(server, range, 0);
    results := first.records;
    offsets := [0];
    var total := first.total;
    var offset := PageStep;
    while offset < total
      invariant total == |m|
      invariant |offsets| >= 1 && offset == PageStep * |offsets|
      invariant |offsets| == 1 || PageStep * (|offsets| - 1) < total
      invariant forall i :: 0 <= i < |offsets| ==> offsets[i] == PageStep * i
      invariant forall i :: 0 < i < |offsets| ==> offsets[i] < total
      invariant results == m[..Min(offset, total)]
    {
      var response := Fetch(server, range, offset);
      assert m[..Min(offset + PageStep, total)] == m[..offset] + m[offset..Min(offset + PageStep, total)];
      results := results + response.records;
      offsets := offsets + [offset];
      offset := offset + PageStep;
    }
    assert results == m;
  }

  /** A page past the first is full unless it is the last one, and two
      consecutive pages join without gap or overlap. */
  lemma PagesAdjoin(server: Server, range: Range, offset: nat)
    requires offset < |Matching(server, range)|
    ensures var total := |Matching(server, range)|;
            |Fetch(server, range, offset).records| == Min(PageStep, total - offset)
    ensures var total := |Matching(server, range)|;
            Fetch(server, range, offset).records + Fetch(server, range, offset + PageStep).records
              == Matching(server, range)[offset..Min(offset + 2 * PageStep, total)]
  {
  }

  /** Restricting the query to a narrower range selects no new record. */
  lemma NarrowerRangeSelectsFewer(server: Server, lo: string, lo': string, hi: string, r: Row)
    requires LexLe(lo, lo')
    requires r in Matching(server, Between(lo', hi))
    ensures r in Matching(server, Between(lo, hi))
  {
    FilterMembers(row => InRange(Between(lo', hi), row), server.records);
    FilterMembers(row => InRange(Between(lo, hi), row), server.records);
    LexLeTrans(lo, lo', r.date);
  }

  /** A record is selected exactly when it is in the collection and its date
      lies within the inclusive bounds. */
  lemma MatchingMembers(server: Server, range: Range)
    ensures forall r :: r in Matching(server, range) <==> r in server.records && InRange(range, r)
  {
    FilterMembers(row => InRange(range, row), server.records);
  }
}
