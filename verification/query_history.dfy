/** The query history kept by the application's shared service: an append-only list whose
    last element is the query currently shown. */
module QueryHistory {
  import opened Wrappers

  datatype QueryService = QueryService(queries: seq<string>)

  /** The service as constructed: no queries yet. */
  const Initial: QueryService := QueryService([])

  /** `addQuery`: pushes the new query at the end and changes nothing else, so `getQueries`
      then lists the earlier queries followed by it and `getCurrentQuery` returns it. */
  function AddQuery(s: QueryService, newQuery: string): (r: QueryService)
    ensures |r.queries| == |s.queries| + 1
    ensures r.queries[..|s.queries|] == s.queries
    ensures r.queries[|s.queries|] == newQuery
    ensures GetQueries(r) == GetQueries(s) + [newQuery]
    ensures GetCurrentQuery(r) == Some(newQuery)
  {
    QueryService(s.queries + [newQuery])
  }

  /** `getCurrentQuery`: the most recently added query; `undefined` before the first one. */
  function GetCurrentQuery(s: QueryService): (r: Option<string>)
    ensures r.None? <==> |s.queries| == 0
    ensures r.Some? ==> r.value == s.queries[|s.queries| - 1]
  {
    if |s.queries| == 0 then None else Some(s.queries[|s.queries| - 1])
  }

  /** `getQueries`: every query in insertion order. The list is returned by value, so a
      caller cannot alter the service's own list through it. */
  function GetQueries(s: QueryService): (r: seq<string>)
    ensures r == s.queries
  {
    s.queries
  }

  /** The service after adding `qs` one after the other. */
  function AddAll(s: QueryService, qs: seq<string>): QueryService
  {
    if |qs| == 0 then s else AddQuery(AddAll(s, qs[..|qs| - 1]), qs[|qs| - 1])
  }

  /** Starting from the initial service, the history is exactly the added queries in order,
      and the current query is the last one added. */
  lemma {:induction false} HistoryInInsertionOrder(qs: seq<string>)
    ensures GetQueries(AddAll(Initial, qs)) == qs
    ensures GetCurrentQuery(AddAll(Initial, qs)) == if |qs| == 0 then None else Some(qs[|qs| - 1])
  {
    if |qs| > 0 {
      HistoryInInsertionOrder(qs[..|qs| - 1]);
      assert qs[..|qs| - 1] + [qs[|qs| - 1]] == qs;
    }
  }
}
