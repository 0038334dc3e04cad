/** The `listTodos` connection end to end: the rows `list_todos` fetches, handed to
    the connection builder with each todo's own cursor. */
module TodoPages {
  import opened Machine
  import opened Wrappers
  import opened RelayPagination
  import opened Relay
  import opened TodoModel
  import opened TodoRepo

  /** The cursor of a todo, as the connection builder asks for it. */
  function CursorOf(): Todo -> RelayCursor.Cursor {
    (t: Todo) => t.Cursor()
  }

  /** The connection for a table and accepted arguments. */
  function Page(rows: seq<Todo>, p: Pagination, totalCount: int32): Connection<Todo> {
    BuildConnection(p, totalCount, Select(rows, p), CursorOf())
  }

  /** `list_todos` fetches at most `limit()` rows, never one more, so the builder
      never sees more nodes than were asked for: on the end-to-end path neither
      `hasNextPage` nor `hasPreviousPage` is ever true, whatever the table holds. */
  lemma NoFurtherPages(rows: seq<Todo>, p: Pagination, totalCount: int32)
    requires Validate(p) == Pass
    ensures !Page(rows, p, totalCount).pageInfo.hasNextPage
    ensures !Page(rows, p, totalCount).pageInfo.hasPreviousPage
  {
    LimitOfValid(p);
    SelectSize(rows, p);
    PageFlags(p, totalCount, Select(rows, p), CursorOf());
  }

  /** For the same reason the builder truncates nothing: every fetched row becomes an
      edge, in the order of the query, carrying its own cursor. */
  lemma EveryRowIsAnEdge(rows: seq<Todo>, p: Pagination, totalCount: int32)
    requires Validate(p) == Pass
    ensures var page := Page(rows, p, totalCount);
      && |page.edges| == |Select(rows, p)|
      && forall i :: 0 <= i < |page.edges| ==>
           page.edges[i].node == Select(rows, p)[i] && page.edges[i].cursor == Select(rows, p)[i].Cursor()
  {
    LimitOfValid(p);
    SelectSize(rows, p);
  }
}
