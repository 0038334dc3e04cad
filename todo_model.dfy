/** The `Todo` record. Its GraphQL accessors (`id`, `description`, `done`,
    `created_at`) are the datatype's fields, which return what is stored. */
module TodoModel {
  import opened Scalar
  import RelayCursor

  datatype Todo = Todo(id: ID, description: string, done: bool, createdAt: Timestamp) {
    /** `ConnectionNode::cursor`: the position of this row in the keyset order. */
    function Cursor(): (c: RelayCursor.Cursor)
      ensures c.id == id && c.createdAt == createdAt
    {
      RelayCursor.Cursor(id, createdAt)
    }
  }

  /** Two todos have the same cursor text exactly when they agree on `id` and
      `created_at`; description and completion do not enter it. */
  lemma CursorTextIdentifiesKey(t1: Todo, t2: Todo)
    ensures RelayCursor.Encode(t1.Cursor()) == RelayCursor.Encode(t2.Cursor()) <==>
      t1.id == t2.id && t1.createdAt == t2.createdAt
  {
    RelayCursor.EncodeInjective(t1.Cursor(), t2.Cursor());
  }
}
