/** The todo repository over an in-memory table: the rows of `todos` as a sequence,
    the statements of each repository method as their effect on that sequence, and
    the keyset query of `list_todos` as filter, order and limit. */
module TodoRepo {
  import opened Wrappers
  import opened Machine
  import opened Scalar
  import opened RelayCursor
  import opened RelayPagination
  import opened TodoModel
  import Decimal

  // ----- rows selected by a WHERE clause -----

  /** The elements of `s` that satisfy `f`, in their order. */
  function Keep<T(!new)>(s: seq<T>, f: T -> bool): (r: seq<T>)
    ensures |r| <= |s|
    ensures forall x :: x in r <==> x in s && f(x)
    decreases |s|
  {
    if s == [] then [] else Keep(s[..|s| - 1], f) + (if f(s[|s| - 1]) then [s[|s| - 1]] else [])
  }

  /** The number of elements of `s` that satisfy `f`: a statement's rows affected. */
  function Count<T>(s: seq<T>, f: T -> bool): (n: nat)
    ensures n <= |s|
    ensures n > 0 <==> exists i :: 0 <= i < |s| && f(s[i])
    decreases |s|
  {
    if s == [] then 0
    else
      var init := s[..|s| - 1];
      assert forall i :: 0 <= i < |init| ==> init[i] == s[i];
      Count(init, f) + (if f(s[|s| - 1]) then 1 else 0)
  }

  function Not<T>(f: T -> bool): T -> bool {
    (x: T) => !f(x)
  }

  function HasId(id: ID): Todo -> bool {
    (t: Todo) => t.id == id
  }

  function IsDone(): Todo -> bool {
    (t: Todo) => t.done
  }

  function DoneDiffers(done: bool): Todo -> bool {
    (t: Todo) => t.done != done
  }

  function SetDone(done: bool): Todo -> Todo {
    (t: Todo) => t.(done := done)
  }

  function SetDescription(description: string): Todo -> Todo {
    (t: Todo) => t.(description := description)
  }

  /** The table after `UPDATE ... WHERE where`: `change` applied to the rows that
      satisfy `where`, the others left as they are. */
  function Changed(s: seq<Todo>, where: Todo -> bool, change: Todo -> Todo): (r: seq<Todo>)
    ensures |r| == |s|
    ensures forall k :: 0 <= k < |s| ==> r[k] == if where(s[k]) then change(s[k]) else s[k]
    decreases |s|
  {
    if s == [] then []
    else
      var init := s[..|s| - 1];
      var last := s[|s| - 1];
      Changed(init, where, change) + [if where(last) then change(last) else last]
  }

  /** One more row of a prefix: the loop steps of `UpdateRows` and `DeleteRows`. */
  lemma UpdateStep(s: seq<Todo>, i: nat, where: Todo -> bool, change: Todo -> Todo)
    requires i < |s|
    ensures Changed(s[..i + 1], where, change) ==
      Changed(s[..i], where, change) + [if where(s[i]) then change(s[i]) else s[i]]
    ensures Count(s[..i + 1], where) == Count(s[..i], where) + (if where(s[i]) then 1 else 0)
  {
    assert s[..i + 1][..i] == s[..i];
  }

  lemma DeleteStep(s: seq<Todo>, i: nat, where: Todo -> bool)
    requires i < |s|
    ensures Keep(s[..i + 1], Not(where)) == Keep(s[..i], Not(where)) + (if where(s[i]) then [] else [s[i]])
    ensures Count(s[..i + 1], where) == Count(s[..i], where) + (if where(s[i]) then 1 else 0)
  {
    assert s[..i + 1][..i] == s[..i];
  }

  /** The primary-key constraint of `todos`. */
  predicate UniqueIds(rows: seq<Todo>) {
    forall i, j :: 0 <= i < j < |rows| ==> rows[i].id != rows[j].id
  }

  /** Every id is one the AUTOINCREMENT counter has handed out. */
  predicate IdsUpTo(rows: seq<Todo>, lastRowId: int) {
    forall t :: t in rows ==> 1 <= t.id.value <= lastRowId
  }

  /** An UPDATE that leaves ids alone keeps the key unique and the ids handed out. */
  lemma ChangedKeepsIds(s: seq<Todo>, where: Todo -> bool, change: Todo -> Todo, lastRowId: int)
    requires UniqueIds(s) && IdsUpTo(s, lastRowId)
    requires forall t :: change(t).id == t.id
    ensures UniqueIds(Changed(s, where, change)) && IdsUpTo(Changed(s, where, change), lastRowId)
  {
    var r := Changed(s, where, change);
    assert forall k :: 0 <= k < |r| ==> r[k].id == s[k].id;
    forall t | t in r ensures 1 <= t.id.value <= lastRowId {
      var k :| 0 <= k < |r| && r[k] == t;
      assert s[k] in s;
    }
  }

  lemma {:induction false} KeepCount<T(!new)>(s: seq<T>, f: T -> bool)
    ensures |Keep(s, Not(f))| + Count(s, f) == |s|
    decreases |s|
  {
    if s != [] {
      KeepCount(s[..|s| - 1], f);
    }
  }

  /** Deleting rows keeps the primary key unique. */
  lemma {:induction false} KeepUniqueIds(rows: seq<Todo>, f: Todo -> bool)
    requires UniqueIds(rows)
    ensures UniqueIds(Keep(rows, f))
    decreases |rows|
  {
    if rows != [] {
      var init := rows[..|rows| - 1];
      var last := rows[|rows| - 1];
      assert UniqueIds(init);
      KeepUniqueIds(init, f);
      var kept := Keep(init, f);
      forall x | x in kept ensures x.id != last.id {
        var k :| 0 <= k < |init| && init[k] == x;
      }
    }
  }

  /** With a unique primary key, at most one row has a given id. */
  lemma {:induction false} CountIdAtMostOne(rows: seq<Todo>, id: ID)
    requires UniqueIds(rows)
    ensures Count(rows, HasId(id)) <= 1
    decreases |rows|
  {
    if rows != [] {
      var init := rows[..|rows| - 1];
      assert UniqueIds(init);
      CountIdAtMostOne(init, id);
    }
  }

  // ----- the keyset order of `(id, created_at)` -----

  /** `(aId, aAt) < (bId, bAt)` as SQL compares row values: lexicographically. */
  predicate KeyLess(aId: int, aAt: int, bId: int, bAt: int) {
    aId < bId || (aId == bId && aAt < bAt)
  }

  /** `WHERE (id, created_at) > (cursor.id, cursor.created_at)`. */
  predicate RowAfter(t: Todo, c: Cursor) {
    KeyLess(c.id.value, c.createdAt.value, t.id.value, t.createdAt.value)
  }

  /** `WHERE (id, created_at) < (cursor.id, cursor.created_at)`. */
  predicate RowBefore(t: Todo, c: Cursor) {
    KeyLess(t.id.value, t.createdAt.value, c.id.value, c.createdAt.value)
  }

  datatype Direction = Ascending | Descending

  /** `a` may come before `b` under `ORDER BY id, created_at` in direction `dir`. */
  predicate InOrder(a: Todo, b: Todo, dir: Direction) {
    match dir
    case Ascending => !KeyLess(b.id.value, b.createdAt.value, a.id.value, a.createdAt.value)
    case Descending => !KeyLess(a.id.value, a.createdAt.value, b.id.value, b.createdAt.value)
  }

  predicate Sorted(s: seq<Todo>, dir: Direction) {
    forall i, j :: 0 <= i < j < |s| ==> InOrder(s[i], s[j], dir)
  }

  function Insert(x: Todo, s: seq<Todo>, dir: Direction): (r: seq<Todo>)
    ensures multiset(r) == multiset(s) + multiset{x}
    decreases |s|
  {
    if s == [] then [x]
    else if InOrder(x, s[0], dir) then [x] + s
    else
      assert s == [s[0]] + s[1..];
      [s[0]] + Insert(x, s[1..], dir)
  }

  /** Inserting into a sorted sequence keeps it sorted. */
  lemma {:induction false} InsertSorted(x: Todo, s: seq<Todo>, dir: Direction)
    requires Sorted(s, dir)
    ensures Sorted(Insert(x, s, dir), dir)
    decreases |s|
  {
    if s != [] && !InOrder(x, s[0], dir) {
      var tail := s[1..];
      InsertSorted(x, tail, dir);
      var rest := Insert(x, tail, dir);
      assert Insert(x, s, dir) == [s[0]] + rest;
      forall y | y in rest ensures InOrder(s[0], y, dir) {
        assert y in multiset(rest);
        if y != x {
          assert y in tail;
        }
      }
    }
  }

  /** The rows in the order of an `ORDER BY id, created_at` clause. */
  function Sort(s: seq<Todo>, dir: Direction): (r: seq<Todo>)
    ensures Sorted(r, dir)
    ensures multiset(r) == multiset(s)
    decreases |s|
  {
    if s == [] then []
    else
      assert s == [s[0]] + s[1..];
      var sorted := Sort(s[1..], dir);
      InsertSorted(s[0], sorted, dir);
      Insert(s[0], sorted, dir)
  }

  /** `LIMIT n`; SQLite reads a negative limit as no limit. */
  function ApplyLimit(s: seq<Todo>, limit: int32): (r: seq<Todo>)
    ensures r <= s
    ensures limit >= 0 ==> |r| == if |s| < limit then |s| else limit as int
    ensures limit < 0 ==> r == s
  {
    if limit < 0 || |s| <= limit then s else s[..limit]
  }

  // ----- the query of `list_todos` -----

  datatype KeysetFilter = NoFilter | After(cursor: Cursor) | Before(cursor: Cursor)

  function Matching(f: KeysetFilter): Todo -> bool {
    (t: Todo) => match f
         case NoFilter => true
         case After(c) => RowAfter(t, c)
         case Before(c) => RowBefore(t, c)
  }

  /** What the text of a `list_todos` query asks the store for. */
  datatype Plan = Plan(filter: KeysetFilter, order: Direction, limit: int32)

  /** The rows a plan returns from a table. */
  function Run(rows: seq<Todo>, plan: Plan): seq<Todo> {
    ApplyLimit(Sort(Keep(rows, Matching(plan.filter)), plan.order), plan.limit)
  }

  /** The plan `list_todos` builds for given arguments: `after` decides the filter if
      present, else `before`; the order is descending exactly when `last` is given;
      the limit is `Pagination::limit`, not one more. */
  function PlanOf(p: Pagination): Plan {
    Plan(
      if p.after.Some? then After(p.after.value)
      else if p.before.Some? then Before(p.before.value)
      else NoFilter,
      if p.last.Some? then Descending else Ascending,
      Limit(p))
  }

  /** The rows `list_todos` returns for a table and arguments. */
  function Select(rows: seq<Todo>, p: Pagination): seq<Todo> {
    Run(rows, PlanOf(p))
  }

  /** A value bound to a placeholder of the query. */
  datatype SqlArgument = IdArgument(id: ID) | TimestampArgument(createdAt: Timestamp) | Int32Argument(n: int32)

  const SELECT_CLAUSE: string := "SELECT id, description, done, created_at FROM todos "

  /** `LIMIT ?n`, the limit bound to the `n`-th placeholder. */
  function LimitClause(index: nat): string {
    "LIMIT ?" + Decimal.NatToText(index)
  }

  /** The row-value comparison of a keyset `WHERE` clause. */
  datatype Comparison = Greater | Less {
    function Symbol(): string {
      match this
      case Greater => ">"
      case Less => "<"
    }
  }

  /** `WHERE (id, created_at) <op> ( ?first, ?first+1 ) `. */
  function WhereClause(op: Comparison, first: nat): string {
    "WHERE (id, created_at) " + op.Symbol() + " ( ?" + Decimal.NatToText(first) + ", ?" + Decimal.NatToText(first + 1) + " ) "
  }

  function OrderClause(dir: Direction): string {
    match dir
    case Descending => "ORDER BY id DESC, created_at DESC "
    case Ascending => "ORDER BY id ASC, created_at ASC "
  }

  predicate EndsWith(s: string, suffix: string) {
    |suffix| <= |s| && s[|s| - |suffix|..] == suffix
  }

  /** A text built as `head + middle + tail` starts with `head + middle` and ends
      with `middle + tail`. */
  lemma Joined(head: string, middle: string, tail: string, s: string)
    requires s == head + middle + tail
    ensures head <= s && head + middle <= s && EndsWith(s, middle + tail)
  {
    assert s[..|head + middle|] == head + middle;
    assert s[..|head|] == head;
    assert s[|s| - |middle + tail|..] == middle + tail;
  }

  /** The first placeholders of a query are `?1` and `?2`. */
  lemma WhereClauseText()
    ensures WhereClause(Greater, 1) == "WHERE (id, created_at) > ( ?1, ?2 ) "
    ensures WhereClause(Less, 1) == "WHERE (id, created_at) < ( ?1, ?2 ) "
  {
    assert Decimal.NatToText(1) == "1";
    assert Decimal.NatToText(2) == "2";
    assert Greater.Symbol() == ">" && Less.Symbol() == "<";
  }

  /** The text of the keyset condition a filter asks for, with its placeholders
      numbered from 1. */
  function ConditionText(f: KeysetFilter): string {
    match f
    case NoFilter => []
    case After(_) => WhereClause(Greater, 1)
    case Before(_) => WhereClause(Less, 1)
  }

  /** The values bound to the placeholders of that condition: the cursor's id, then
      its timestamp. */
  function ConditionArguments(f: KeysetFilter): seq<SqlArgument> {
    match f
    case NoFilter => []
    case After(c) => [IdArgument(c.id), TimestampArgument(c.createdAt)]
    case Before(c) => [IdArgument(c.id), TimestampArgument(c.createdAt)]
  }

  /** The query text for a plan: the `SELECT`, the keyset condition, the `ORDER BY` of
      the plan's direction, and `LIMIT` on the placeholder after the condition's. */
  function ListQueryText(plan: Plan): string {
    SELECT_CLAUSE + ConditionText(plan.filter) + OrderClause(plan.order)
      + LimitClause(|ConditionArguments(plan.filter)| + 1)
  }

  /** The arguments bound to that text: the condition's, then the limit. */
  function ListQueryArguments(plan: Plan): seq<SqlArgument> {
    ConditionArguments(plan.filter) + [Int32Argument(plan.limit)]
  }

  /** The keyset condition of `list_todos` and the arguments bound to its two
      placeholders: rows after the `after` cursor when it is given, else rows before
      the `before` cursor, else no condition. */
  method KeysetCondition(p: Pagination) returns (condition: string, arguments: seq<SqlArgument>, filter: KeysetFilter)
    ensures filter == PlanOf(p).filter
    ensures condition == ConditionText(filter) && arguments == ConditionArguments(filter)
  {
    condition := [];
    arguments := [];
    filter := NoFilter;
    if p.after.Some? {
      var after := p.after.value;
      condition := condition + WhereClause(Greater, |arguments| + 1);
      arguments := arguments + [IdArgument(after.id)];
      arguments := arguments + [TimestampArgument(after.createdAt)];
      filter := After(after);
    } else if p.before.Some? {
      var before := p.before.value;
      condition := condition + WhereClause(Less, |arguments| + 1);
      arguments := arguments + [IdArgument(before.id)];
      arguments := arguments + [TimestampArgument(before.createdAt)];
      filter := Before(before);
    }
  }

  /** The query text and the arguments of `list_todos`, built step by step, and the
      plan that the text stands for. */
  method BuildListQuery(p: Pagination) returns (query: string, arguments: seq<SqlArgument>, plan: Plan)
    ensures plan == PlanOf(p)
    ensures query == ListQueryText(plan) && arguments == ListQueryArguments(plan)
  {
    var condition, filter;
    query := SELECT_CLAUSE;
    condition, arguments, filter := KeysetCondition(p);
    query := query + condition;
    var order := if p.last.Some? then Descending else Ascending;
    query := query + OrderClause(order);
    var index := |arguments| + 1;
    query := query + LimitClause(index);
    arguments := arguments + [Int32Argument(Limit(p))];
    plan := Plan(filter, order, Limit(p));
  }

  /** What the query of a plan says: with `after`, the text starts with the `SELECT`
      and `(id, created_at) > (?1, ?2)`, bound to the cursor's id and timestamp; with
      `before`, the same with `<`; with no cursor, the `ORDER BY` follows the `SELECT`
      and the limit is the only argument. Every text ends with the `ORDER BY` of the
      plan's direction and `LIMIT ?n`, where the n-th and last argument is the limit. */
  lemma ListQueryShape(plan: Plan)
    ensures var text, args := ListQueryText(plan), ListQueryArguments(plan);
      && |args| >= 1 && args[|args| - 1] == Int32Argument(plan.limit)
      && EndsWith(text, OrderClause(plan.order) + LimitClause(|args|))
      && (plan.filter.After? ==>
            SELECT_CLAUSE + WhereClause(Greater, 1) <= text &&
            args[..|args| - 1] == [IdArgument(plan.filter.cursor.id), TimestampArgument(plan.filter.cursor.createdAt)])
      && (plan.filter.Before? ==>
            SELECT_CLAUSE + WhereClause(Less, 1) <= text &&
            args[..|args| - 1] == [IdArgument(plan.filter.cursor.id), TimestampArgument(plan.filter.cursor.createdAt)])
      && (plan.filter.NoFilter? ==> SELECT_CLAUSE + OrderClause(plan.order) <= text && |args| == 1)
  {
    var head := SELECT_CLAUSE + ConditionText(plan.filter);
    var args := ListQueryArguments(plan);
    Joined(head, OrderClause(plan.order), LimitClause(|args|), ListQueryText(plan));
    assert args[..|args| - 1] == ConditionArguments(plan.filter);
  }

  // ----- what `list_todos` returns -----

  /** Every row returned is a row of the table that passes the keyset filter: rows
      after the `after` cursor when it is given (whatever `before` says), else rows
      before the `before` cursor. */
  lemma SelectFilters(rows: seq<Todo>, p: Pagination)
    ensures forall t :: t in Select(rows, p) ==> t in rows
    ensures p.after.Some? ==> forall t :: t in Select(rows, p) ==> RowAfter(t, p.after.value)
    ensures p.after.None? && p.before.Some? ==> forall t :: t in Select(rows, p) ==> RowBefore(t, p.before.value)
  {
    var kept := Keep(rows, Matching(PlanOf(p).filter));
    var sorted := Sort(kept, PlanOf(p).order);
    forall t | t in Select(rows, p) ensures t in kept {
      assert t in sorted;
      assert t in multiset(sorted);
    }
  }

  /** With `after` given, `before` is ignored. */
  lemma AfterWinsOverBefore(rows: seq<Todo>, p: Pagination)
    requires p.after.Some?
    ensures Select(rows, p) == Select(rows, p.(before := None))
  {
  }

  /** The rows come sorted by `(id, created_at)`, descending exactly when `last` is given. */
  lemma SelectOrder(rows: seq<Todo>, p: Pagination)
    ensures Sorted(Select(rows, p), if p.last.Some? then Descending else Ascending)
  {
  }

  /** At most `limit()` rows come back (all matching rows if the limit is negative). */
  lemma SelectSize(rows: seq<Todo>, p: Pagination)
    ensures var n := |Keep(rows, Matching(PlanOf(p).filter))|;
      Limit(p) >= 0 ==> |Select(rows, p)| == if n < Limit(p) then n else Limit(p) as int
    ensures Limit(p) < 0 ==> |Select(rows, p)| == |Keep(rows, Matching(PlanOf(p).filter))|
  {
    var kept := Keep(rows, Matching(PlanOf(p).filter));
    assert |multiset(Sort(kept, PlanOf(p).order))| == |multiset(kept)|;
  }

  /** The page is the front of the keyset order: a matching row that is not on the
      page comes after every row that is. */
  lemma SelectIsFront(rows: seq<Todo>, p: Pagination, t: Todo)
    requires t in rows && Matching(PlanOf(p).filter)(t) && t !in Select(rows, p)
    ensures forall u :: u in Select(rows, p) ==> InOrder(u, t, PlanOf(p).order)
  {
    var plan := PlanOf(p);
    var kept := Keep(rows, Matching(plan.filter));
    var sorted := Sort(kept, plan.order);
    var page := Select(rows, p);
    assert t in kept;
    assert t in multiset(sorted);
    var j :| 0 <= j < |sorted| && sorted[j] == t;
    assert page == sorted[..|page|];
    assert j >= |page|;
    forall u | u in page ensures InOrder(u, t, plan.order) {
      var i :| 0 <= i < |page| && page[i] == u;
      assert sorted[i] == u;
    }
  }

  /** The row scan of an `UPDATE`: every row that satisfies `where` is replaced by
      its changed version, in place, and counted. */
  method UpdateRows(table: seq<Todo>, where: Todo -> bool, change: Todo -> Todo) returns (next: seq<Todo>, rowsAffected: nat)
    ensures next == Changed(table, where, change)
    ensures rowsAffected == Count(table, where)
  {
    next := [];
    rowsAffected := 0;
    var i := 0;
    while i < |table|
      invariant 0 <= i <= |table|
      invariant next == Changed(table[..i], where, change)
      invariant rowsAffected == Count(table[..i], where)
    {
      UpdateStep(table, i, where, change);
      var row := table[i];
      next := next + [if where(row) then change(row) else row];
      rowsAffected := rowsAffected + (if where(row) then 1 else 0);
      i := i + 1;
    }
    assert table[..i] == table;
  }

  /** The row scan of a `DELETE`: every row that satisfies `where` is dropped and
      counted; the others stay in order. */
  method DeleteRows(table: seq<Todo>, where: Todo -> bool) returns (kept: seq<Todo>, rowsAffected: nat)
    ensures kept == Keep(table, Not(where))
    ensures rowsAffected == Count(table, where)
  {
    kept := [];
    rowsAffected := 0;
    var i := 0;
    while i < |table|
      invariant 0 <= i <= |table|
      invariant kept == Keep(table[..i], Not(where))
      invariant rowsAffected == Count(table[..i], where)
    {
      DeleteStep(table, i, where);
      var row := table[i];
      kept := kept + (if where(row) then [] else [row]);
      rowsAffected := rowsAffected + (if where(row) then 1 else 0);
      i := i + 1;
    }
    assert table[..i] == table;
  }

  datatype RepoError = DatabaseFull

  /** `TodoRepository` over its table. `lastRowId` is the table's AUTOINCREMENT
      counter: the largest id ever handed out. */
  class TodoRepository {
    var rows: seq<Todo>
    var lastRowId: int64

    ghost predicate Valid()
      reads this
    {
      && UniqueIds(rows)
      && 0 <= lastRowId
      && IdsUpTo(rows, lastRowId)
    }

    /** A repository over an empty table. */
    constructor ()
      ensures Valid() && rows == [] && lastRowId == 0
    {
      rows := [];
      lastRowId := 0;
    }

    /** `INSERT INTO todos (description) VALUES (?1)`: a new row, not done, stamped
        `now`, with the next AUTOINCREMENT id, which is returned. */
    method AddTodo(description: string, now: Timestamp) returns (r: Result<ID, RepoError>)
      requires Valid()
      modifies this
      ensures Valid()
      ensures old(lastRowId) == TWO_63 - 1 ==> r == Err(DatabaseFull) && rows == old(rows) && lastRowId == old(lastRowId)
      ensures old(lastRowId) < TWO_63 - 1 ==>
        && r == Ok(ID(old(lastRowId) + 1))
        && lastRowId == old(lastRowId) + 1
        && rows == old(rows) + [Todo(r.value, description, false, now)]
      ensures r.Ok? ==> forall t :: t in old(rows) ==> t.id != r.value
    {
      if lastRowId == TWO_63 - 1 {
        return Err(DatabaseFull);
      }
      lastRowId := lastRowId + 1;
      var id := ID(lastRowId);
      rows := rows + [Todo(id, description, false, now)];
      r := Ok(id);
    }

    /** `UPDATE todos SET ... WHERE ...`: apply `change` to the rows that satisfy
        `where`, leave the others, and report the number of rows affected. */
    method Update(where: Todo -> bool, change: Todo -> Todo) returns (rowsAffected: nat)
      requires Valid()
      requires forall t :: change(t).id == t.id
      modifies this
      ensures Valid() && lastRowId == old(lastRowId)
      ensures rows == Changed(old(rows), where, change)
      ensures rowsAffected == Count(old(rows), where)
    {
      var next;
      next, rowsAffected := UpdateRows(rows, where, change);
      ChangedKeepsIds(rows, where, change, lastRowId);
      rows := next;
    }

    /** `DELETE FROM todos WHERE ...`: drop the rows that satisfy `where`, keep the
        others in order, and report the number of rows affected. */
    method Delete(where: Todo -> bool) returns (rowsAffected: nat)
      requires Valid()
      modifies this
      ensures Valid() && lastRowId == old(lastRowId)
      ensures rows == Keep(old(rows), Not(where))
      ensures rowsAffected == Count(old(rows), where)
    {
      var kept;
      kept, rowsAffected := DeleteRows(rows, where);
      KeepUniqueIds(rows, Not(where));
      rows := kept;
    }

    /** `complete_todo`: set `done` on the row with this id; true when the row exists
        (even if it was already in that state). */
    method CompleteTodo(id: ID, done: bool) returns (updated: bool)
      requires Valid()
      modifies this
      ensures Valid() && lastRowId == old(lastRowId)
      ensures |rows| == |old(rows)|
      ensures forall k :: 0 <= k < |rows| ==>
        rows[k] == if old(rows)[k].id == id then old(rows)[k].(done := done) else old(rows)[k]
      ensures updated <==> exists k :: 0 <= k < |old(rows)| && old(rows)[k].id == id
    {
      var rowsAffected := Update(HasId(id), SetDone(done));
      updated := rowsAffected > 0;
    }

    /** `edit_todo`: set `description` on the row with this id; true when the row exists. */
    method EditTodo(id: ID, description: string) returns (updated: bool)
      requires Valid()
      modifies this
      ensures Valid() && lastRowId == old(lastRowId)
      ensures |rows| == |old(rows)|
      ensures forall k :: 0 <= k < |rows| ==>
        rows[k] == if old(rows)[k].id == id then old(rows)[k].(description := description) else old(rows)[k]
      ensures updated <==> exists k :: 0 <= k < |old(rows)| && old(rows)[k].id == id
    {
      var rowsAffected := Update(HasId(id), SetDescription(description));
      updated := rowsAffected > 0;
    }

    /** `toggle_all`: `UPDATE todos SET done = ?1 WHERE done <> ?1`. Afterwards every
        row has that state; true when some row changed. */
    method ToggleAll(done: bool) returns (changed: bool)
      requires Valid()
      modifies this
      ensures Valid() && lastRowId == old(lastRowId)
      ensures |rows| == |old(rows)|
      ensures forall k :: 0 <= k < |rows| ==> rows[k] == old(rows)[k].(done := done)
      ensures changed <==> exists k :: 0 <= k < |old(rows)| && old(rows)[k].done != done
    {
      var rowsAffected := Update(DoneDiffers(done), SetDone(done));
      changed := rowsAffected > 0;
    }

    /** `remove_todo`: delete the row with this id; true when it existed. */
    method RemoveTodo(id: ID) returns (removed: bool)
      requires Valid()
      modifies this
      ensures Valid() && lastRowId == old(lastRowId)
      ensures rows == Keep(old(rows), Not(HasId(id)))
      ensures forall t :: t in rows <==> t in old(rows) && t.id != id
      ensures removed <==> exists k :: 0 <= k < |old(rows)| && old(rows)[k].id == id
      ensures |rows| == |old(rows)| - (if removed then 1 else 0)
    {
      ghost var table := rows;
      var rowsAffected := Delete(HasId(id));
      removed := rowsAffected > 0;
      KeepCount(table, HasId(id));
      CountIdAtMostOne(table, id);
    }

    /** `clear_completed`: delete exactly the done rows, keeping the others in order;
        true when there was one. */
    method ClearCompleted() returns (cleared: bool)
      requires Valid()
      modifies this
      ensures Valid() && lastRowId == old(lastRowId)
      ensures rows == Keep(old(rows), Not(IsDone()))
      ensures forall t :: t in rows <==> t in old(rows) && !t.done
      ensures cleared <==> exists k :: 0 <= k < |old(rows)| && old(rows)[k].done
    {
      var rowsAffected := Delete(IsDone());
      cleared := rowsAffected > 0;
    }

    /** `list_todos`: the rows the keyset query returns. */
    method ListTodos(p: Pagination) returns (recs: seq<Todo>)
      ensures recs == Select(rows, p)
    {
      var query, arguments, plan := BuildListQuery(p);
      recs := Run(rows, plan);
    }

    /** `total`: `SELECT COUNT(*)`, cast `as i32`; the number of rows whatever the
        pagination. */
    method Total() returns (n: int32)
      ensures (n - |rows|) % TWO_32 == 0
      ensures |rows| < TWO_31 ==> n == |rows|
    {
      n := TruncateToI32(|rows|);
    }
  }
}
