/** The Relay connection: edges, page info and total count built from the rows a
    loader returned, and the order of the steps in `Connection::new`. The node type
    is generic; `cursorOf` plays the part of `ConnectionNode::cursor`. */
module Relay {
  import opened Wrappers
  import opened Machine
  import opened RelayCursor
  import opened RelayPagination

  datatype Edge<N> = Edge(cursor: Cursor, node: N)

  datatype PageInfo = PageInfo(hasPreviousPage: bool, hasNextPage: bool, startCursor: Option<Cursor>, endCursor: Option<Cursor>)

  datatype Connection<N> = Connection(edges: seq<Edge<N>>, pageInfo: PageInfo, totalCount: int32)

  /** How many nodes `build_connection` keeps: `min(len as i32, limit)`, cast back
      with `as usize` and given to `take`. */
  function KeptCount(p: Pagination, len: nat): (n: nat)
    ensures n <= len
    ensures len < TWO_31 && Limit(p) >= 0 ==> n == if len < Limit(p) then len else Limit(p) as int
    ensures len < TWO_31 && Limit(p) < 0 ==> n == len
  {
    var takeLength := MinI32(TruncateToI32(len), Limit(p));
    var bound := I32AsUsize(takeLength);
    if len < bound then len else bound
  }

  /** `Connection::build_connection`. */
  function BuildConnection<N>(p: Pagination, totalCount: int32, nodes: seq<N>, cursorOf: N -> Cursor): (c: Connection<N>)
    ensures |c.edges| == KeptCount(p, |nodes|)
    ensures forall i :: 0 <= i < |c.edges| ==> c.edges[i] == Edge(cursorOf(nodes[i]), nodes[i])
    ensures c.totalCount == totalCount
    ensures c.pageInfo.startCursor == if c.edges == [] then None else Some(cursorOf(nodes[0]))
    ensures c.pageInfo.endCursor == if c.edges == [] then None else Some(cursorOf(nodes[|c.edges| - 1]))
  {
    var edgesLen := TruncateToI32(|nodes|);
    var hasNextPage := p.first.Some? && edgesLen > p.first.value;
    var hasPreviousPage := p.last.Some? && edgesLen > p.last.value;
    var n := KeptCount(p, |nodes|);
    var edges := seq(n, i requires 0 <= i < n => Edge(cursorOf(nodes[i]), nodes[i]));
    Connection(
      edges,
      PageInfo(
        hasPreviousPage,
        hasNextPage,
        if n == 0 then None else Some(edges[0].cursor),
        if n == 0 then None else Some(edges[n - 1].cursor)),
      totalCount)
  }

  /** The page flags, for any realistic number of nodes (below 2^31, so that
      `len as i32` is exact): each is a comparison of the number of nodes the loader
      returned, before truncation, with the size asked for; with neither size given
      both are false. */
  lemma PageFlags<N>(p: Pagination, totalCount: int32, nodes: seq<N>, cursorOf: N -> Cursor)
    requires |nodes| < TWO_31
    ensures var info := BuildConnection(p, totalCount, nodes, cursorOf).pageInfo;
      && (info.hasNextPage <==> p.first.Some? && |nodes| > p.first.value)
      && (info.hasPreviousPage <==> p.last.Some? && |nodes| > p.last.value)
      && (p.first.None? && p.last.None? ==> !info.hasNextPage && !info.hasPreviousPage)
  {
  }

  /** The kept edges are the first `min(len, limit)` nodes, in order, each with its
      own cursor, and the page's start and end cursors are those of its first and
      last edge. */
  lemma PageEdges<N>(p: Pagination, totalCount: int32, nodes: seq<N>, cursorOf: N -> Cursor)
    requires |nodes| < TWO_31 && Limit(p) >= 0
    ensures var c := BuildConnection(p, totalCount, nodes, cursorOf);
      && |c.edges| == (if |nodes| < Limit(p) then |nodes| else Limit(p) as int)
      && (forall i :: 0 <= i < |c.edges| ==> c.edges[i].node == nodes[i] && c.edges[i].cursor == cursorOf(nodes[i]))
      && (c.edges == [] <==> nodes == [] || Limit(p) == 0)
      && (c.edges != [] ==>
            c.pageInfo.startCursor == Some(c.edges[0].cursor) &&
            c.pageInfo.endCursor == Some(c.edges[|c.edges| - 1].cursor))
      && (c.edges == [] ==> c.pageInfo.startCursor.None? && c.pageInfo.endCursor.None?)
  {
  }

  /** A load step that `Connection::new` may take. */
  datatype Load = LoadEdges | LoadTotal

  /** An error of a loader, the `anyhow::Error` of the repository. */
  datatype LoadError = LoadError(description: string)

  datatype ConnectionError = InvalidArguments(error: PaginationError) | LoadFailed(cause: LoadError)

  /** The field name whose selection makes `Connection::new` count the rows. */
  const TOTAL_COUNT_FIELD: string := "totalCount"

  /** `Connection::new`: validate the arguments, then run the loader, then run the
      total loader only if `totalCount` is among the selected fields, then build.
      `selection` holds the original names of the selected fields; `loads` records
      the loaders run, in order. */
  method New<N>(selection: seq<string>, p: Pagination,
                loader: Pagination -> Result<seq<N>, LoadError>,
                totalLoader: () -> Result<int32, LoadError>,
                cursorOf: N -> Cursor)
    returns (r: Result<Connection<N>, ConnectionError>, loads: seq<Load>)
    ensures Validate(p).Fail? ==> r == Err(InvalidArguments(Validate(p).error)) && loads == []
    ensures Validate(p) == Pass && loader(p).Err? ==> r == Err(LoadFailed(loader(p).error)) && loads == [LoadEdges]
    ensures Validate(p) == Pass && loader(p).Ok? ==>
      loads == (if TOTAL_COUNT_FIELD in selection then [LoadEdges, LoadTotal] else [LoadEdges])
    ensures Validate(p) == Pass && loader(p).Ok? && TOTAL_COUNT_FIELD in selection && totalLoader().Err? ==>
      r == Err(LoadFailed(totalLoader().error))
    ensures r.Ok? <==>
      Validate(p) == Pass && loader(p).Ok? && (TOTAL_COUNT_FIELD in selection ==> totalLoader().Ok?)
    ensures r.Ok? ==>
      r.value == BuildConnection(p, if TOTAL_COUNT_FIELD in selection then totalLoader().value else 0,
                                 loader(p).value, cursorOf)
  {
    loads := [];
    var valid := Validate(p);
    if valid.Fail? {
      return Err(InvalidArguments(valid.error)), loads;
    }
    var hasTotalCountField := TOTAL_COUNT_FIELD in selection;
    loads := loads + [LoadEdges];
    var edges := loader(p);
    if edges.Err? {
      return Err(LoadFailed(edges.error)), loads;
    }
    var totalCount: int32 := 0;
    if hasTotalCountField {
      loads := loads + [LoadTotal];
      var total := totalLoader();
      if total.Err? {
        return Err(LoadFailed(total.error)), loads;
      }
      totalCount := total.value;
    }
    r := Ok(BuildConnection(p, totalCount, edges.value, cursorOf));
  }
}
