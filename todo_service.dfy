/** The todo table and the ordering engine over it (src/todo/todo.service.ts).
    The Supabase table is an in-memory sequence of rows; the store assigns
    ids from a serial counter, as an identity column does. */
module Todos {
  import opened Common
  import opened Ordering
  import opened TodoDto

  /** One row of the `todolist` table. `userId` is nullable. */
  datatype Todo = Todo(
    id: int,
    note: string,
    status: Status,
    order: int,
    userId: Option<int>,
    createdAt: nat)

  /** The body of an update: a field that is absent is left as it is. */
  datatype TodoPatch = TodoPatch(note: Option<string>, status: Option<Status>, order: Option<int>)

  /** The sort key of every list query. */
  function OrderKey(t: Todo): int {
    t.order
  }

  /** The filters of the list queries. */
  datatype Query =
    | Everything
    | WithStatus(status: Status)
    | OwnedBy(userId: int)
    | OwnedByWithStatus(userId: int, status: Status)

  predicate Matches(q: Query, t: Todo) {
    match q
    case Everything => true
    case WithStatus(s) => t.status == s
    case OwnedBy(u) => t.userId == Some(u)
    case OwnedByWithStatus(u, s) => t.userId == Some(u) && t.status == s
  }

  /** The rows that match `q`, in table order. */
  function Select(rows: seq<Todo>, q: Query): (r: seq<Todo>)
    ensures |r| <= |rows|
  {
    if rows == [] then []
    else (if Matches(q, rows[0]) then [rows[0]] else []) + Select(rows[1..], q)
  }

  /** A filtered list holds exactly the matching rows. */
  lemma {:induction false} SelectMembers(rows: seq<Todo>, q: Query)
    ensures forall t :: t in Select(rows, q) <==> t in rows && Matches(q, t)
  {
    if rows != [] {
      SelectMembers(rows[1..], q);
      assert rows == [rows[0]] + rows[1..];
    }
  }

  /** The answer of a list query: the matching rows, ascending by order. */
  function Listing(rows: seq<Todo>, q: Query): (r: seq<Todo>)
    ensures SortedBy(r, OrderKey)
    ensures multiset(r) == multiset(Select(rows, q))
    ensures forall t :: t in r <==> t in rows && Matches(q, t)
  {
    SelectMembers(rows, q);
    SortByCorrect(Select(rows, q), OrderKey);
    var r := SortBy(Select(rows, q), OrderKey);
    assert forall t :: t in r <==> t in multiset(r);
    r
  }

  // ----- rank assignment -----

  /** The rank of the first row of `ORDER BY order DESC LIMIT 1`. */
  function MaxOrder(rows: seq<Todo>): (m: int)
    requires rows != []
    ensures IsMaxOrder(rows, m)
  {
    if |rows| == 1 then rows[0].order
    else
      var m := MaxOrder(rows[1..]);
      assert forall i :: 1 <= i < |rows| ==> rows[i] == rows[1..][i - 1];
      if rows[0].order >= m then rows[0].order else m
  }

  /** `m` is the largest rank in the table. */
  ghost predicate IsMaxOrder(rows: seq<Todo>, m: int) {
    (exists i :: 0 <= i < |rows| && rows[i].order == m)
    && forall i :: 0 <= i < |rows| ==> rows[i].order <= m
  }

  /** The rank given to a todo created without one: one past the largest
      rank when that rank is truthy, and 1 when the table is empty or the
      largest rank is 0. */
  function NextOrder(rows: seq<Todo>): (r: int)
    ensures rows == [] ==> r == 1
    ensures forall m :: IsMaxOrder(rows, m) ==> r == if m != 0 then m + 1 else 1
    ensures forall i :: 0 <= i < |rows| ==> rows[i].order < r
  {
    if rows == [] then 1
    else
      var m := MaxOrder(rows);
      assert forall m' :: IsMaxOrder(rows, m') ==> m' == m;
      if m != 0 then m + 1 else 1
  }

  /** The rank `create` stores: an explicit rank unless it is absent or 0. */
  function AssignedOrder(order: Option<int>, rows: seq<Todo>): (r: int)
    ensures order.Some? && order.value != 0 ==> r == order.value
    ensures order.None? || order.value == 0 ==> forall t :: t in rows ==> t.order < r
    ensures (order.None? || order.value == 0) && rows == [] ==> r == 1
    ensures order.None? || order.value == 0 ==>
              forall m :: IsMaxOrder(rows, m) ==> r == if m != 0 then m + 1 else 1
  {
    if TruthyInt(order) then order.value else NextOrder(rows)
  }

  /** Ranks 1, 3 and 5, in any order and with repeats, give the next rank 6. */
  lemma NextOrderAfterOneThreeFive(rows: seq<Todo>)
    requires forall t :: t in rows ==> t.order == 1 || t.order == 3 || t.order == 5
    requires exists t :: t in rows && t.order == 5
    ensures NextOrder(rows) == 6
  {
  }

  // ----- row lookup and update helpers -----

  /** The row with this id, if any. */
  function FindById(rows: seq<Todo>, id: int): (r: Option<Todo>)
    ensures r.Some? ==> r.value in rows && r.value.id == id
    ensures r.None? <==> forall t :: t in rows ==> t.id != id
  {
    if rows == [] then None
    else if rows[0].id == id then Some(rows[0])
    else FindById(rows[1..], id)
  }

  ghost predicate UniqueIds(rows: seq<Todo>) {
    forall i, j :: 0 <= i < |rows| && 0 <= j < |rows| && rows[i].id == rows[j].id ==> i == j
  }

  /** Apply the fields an update supplies; id, owner and creation time stay. */
  function ApplyPatch(t: Todo, p: TodoPatch): (r: Todo)
    ensures r.id == t.id && r.userId == t.userId && r.createdAt == t.createdAt
    ensures r.note == (if p.note.Some? then p.note.value else t.note)
    ensures r.status == (if p.status.Some? then p.status.value else t.status)
    ensures r.order == (if p.order.Some? then p.order.value else t.order)
  {
    Todo(t.id,
         if p.note.Some? then p.note.value else t.note,
         if p.status.Some? then p.status.value else t.status,
         if p.order.Some? then p.order.value else t.order,
         t.userId, t.createdAt)
  }

  /** The table after `DELETE ... WHERE id = id`. */
  function WithoutId(rows: seq<Todo>, id: int): (r: seq<Todo>)
    ensures forall t :: t in r <==> t in rows && t.id != id
    ensures UniqueIds(rows) ==> UniqueIds(r)
  {
    if rows == [] then []
    else
      var rest := WithoutId(rows[1..], id);
      assert forall t :: t in rows[1..] ==> t in rows;
      assert UniqueIds(rows) ==> UniqueIds(rows[1..]) by {
        if UniqueIds(rows) {
          forall i, j | 0 <= i < |rows[1..]| && 0 <= j < |rows[1..]| && rows[1..][i].id == rows[1..][j].id
            ensures i == j
          {
            assert rows[i + 1].id == rows[j + 1].id;
          }
        }
      }
      assert UniqueIds(rows) ==> forall t :: t in rest ==> t.id != rows[0].id by {
        if UniqueIds(rows) {
          forall t | t in rest ensures t.id != rows[0].id {
            var m :| 0 <= m < |rows[1..]| && rows[1..][m] == t;
            assert rows[m + 1] == t;
          }
        }
      }
      if rows[0].id == id then rest else [rows[0]] + rest
  }

  /** Deleting an id that no row has leaves the table as it is. */
  lemma {:induction false} WithoutAbsentId(rows: seq<Todo>, id: int)
    requires FindById(rows, id).None?
    ensures WithoutId(rows, id) == rows
  {
    if rows != [] {
      assert rows[0] in rows;
      assert FindById(rows[1..], id).None?;
      WithoutAbsentId(rows[1..], id);
      assert rows == [rows[0]] + rows[1..];
    }
  }

  // ----- filter and sort commute -----

  lemma {:induction false} SelectCons(x: Todo, s: seq<Todo>, q: Query)
    ensures Select([x] + s, q) == (if Matches(q, x) then [x] else []) + Select(s, q)
  {
  }

  /** Inserting a rank no larger than the head puts the row first, before and after filtering. */
  lemma {:induction false} InsertAtHeadSelect(x: Todo, s: seq<Todo>, q: Query)
    requires SortedBy(s, OrderKey)
    requires s != [] && x.order <= s[0].order
    ensures Select(InsertBy(x, s, OrderKey), q)
         == if Matches(q, x) then InsertBy(x, Select(s, q), OrderKey) else Select(s, q)
  {
    assert InsertBy(x, s, OrderKey) == [x] + s;
    SelectCons(x, s, q);
    var ss := Select(s, q);
    if Matches(q, x) && ss != [] {
      SelectMembers(s, q);
      assert ss[0] in s;
      var m :| 0 <= m < |s| && s[m] == ss[0];
      assert s[0].order <= s[m].order;
      assert InsertBy(x, ss, OrderKey) == [x] + ss;
    }
  }

  /** Inserting a rank larger than the head leaves the head first. */
  lemma {:induction false} InsertPastHeadSelect(x: Todo, s: seq<Todo>, q: Query)
    requires s != [] && x.order > s[0].order
    requires Select(InsertBy(x, s[1..], OrderKey), q)
          == if Matches(q, x) then InsertBy(x, Select(s[1..], q), OrderKey) else Select(s[1..], q)
    ensures Select(InsertBy(x, s, OrderKey), q)
         == if Matches(q, x) then InsertBy(x, Select(s, q), OrderKey) else Select(s, q)
  {
    var tail := InsertBy(x, s[1..], OrderKey);
    var ss := Select(s[1..], q);
    assert InsertBy(x, s, OrderKey) == [s[0]] + tail;
    SelectCons(s[0], tail, q);
    assert s == [s[0]] + s[1..];
    SelectCons(s[0], s[1..], q);
    if !Matches(q, s[0]) {
      assert Select([s[0]] + tail, q) == Select(tail, q);
      assert Select(s, q) == ss;
    } else if Matches(q, x) {
      assert ([s[0]] + ss)[0] == s[0];
      assert ([s[0]] + ss)[1..] == ss;
      assert InsertBy(x, [s[0]] + ss, OrderKey) == [s[0]] + InsertBy(x, ss, OrderKey);
    }
  }

  lemma {:induction false} SelectInsert(x: Todo, s: seq<Todo>, q: Query)
    requires SortedBy(s, OrderKey)
    ensures Select(InsertBy(x, s, OrderKey), q)
         == if Matches(q, x) then InsertBy(x, Select(s, q), OrderKey) else Select(s, q)
  {
    if s == [] {
      SelectCons(x, [], q);
    } else if x.order <= s[0].order {
      InsertAtHeadSelect(x, s, q);
    } else {
      assert SortedBy(s[1..], OrderKey);
      SelectInsert(x, s[1..], q);
      InsertPastHeadSelect(x, s, q);
    }
  }

  lemma {:induction false} SortCons(x: Todo, s: seq<Todo>)
    ensures SortBy([x] + s, OrderKey) == InsertBy(x, SortBy(s, OrderKey), OrderKey)
  {
  }

  /** Filtering a sorted list gives the sorted filtered list: the
      controller's two-stage filter sorts exactly like a combined query. */
  lemma {:induction false} SelectSortCommute(s: seq<Todo>, q: Query)
    ensures Select(SortBy(s, OrderKey), q) == SortBy(Select(s, q), OrderKey)
  {
    if s != [] {
      var x, tail := s[0], s[1..];
      assert s == [x] + tail;
      SortCons(x, tail);
      SelectSortCommute(tail, q);
      SortByCorrect(tail, OrderKey);
      SelectInsert(x, SortBy(tail, OrderKey), q);
      SelectCons(x, tail, q);
      if Matches(q, x) {
        SortCons(x, Select(tail, q));
      } else {
        assert Select(s, q) == Select(tail, q);
      }
    }
  }

  /** Filtering by owner and then by status equals filtering by both. */
  lemma {:induction false} SelectOwnerThenStatus(rows: seq<Todo>, u: int, s: Status)
    ensures Select(Select(rows, OwnedBy(u)), WithStatus(s)) == Select(rows, OwnedByWithStatus(u, s))
  {
    if rows != [] {
      SelectOwnerThenStatus(rows[1..], u, s);
      assert rows == [rows[0]] + rows[1..];
      SelectCons(rows[0], rows[1..], OwnedBy(u));
      SelectCons(rows[0], rows[1..], OwnedByWithStatus(u, s));
      var owned := Select(rows[1..], OwnedBy(u));
      if Matches(OwnedBy(u), rows[0]) {
        SelectCons(rows[0], owned, WithStatus(s));
      } else {
        assert Select(rows, OwnedBy(u)) == owned;
      }
    }
  }

  /** The user's list filtered by status is the list of that user's todos
      with that status, in the same ascending order. */
  lemma TwoStageListing(rows: seq<Todo>, u: int, s: Status)
    ensures Select(Listing(rows, OwnedBy(u)), WithStatus(s)) == Listing(rows, OwnedByWithStatus(u, s))
  {
    SelectSortCommute(Select(rows, OwnedBy(u)), WithStatus(s));
    SelectOwnerThenStatus(rows, u, s);
  }

  /** The todo service over its table. */
  class TodoService {
    var rows: seq<Todo>
    var nextId: int

    ghost predicate Valid()
      reads this
    {
      UniqueIds(rows) && forall t :: t in rows ==> t.id < nextId
    }

    constructor ()
      ensures Valid() && rows == []
    {
      rows := [];
      nextId := 1;
    }

    /** Insert one row; an absent or zero rank is replaced by `NextOrder`. */
    method Create(dto: CreateTodoDto, now: nat) returns (t: Todo)
      requires Valid()
      modifies this
      ensures Valid()
      ensures FindById(old(rows), t.id).None?
      ensures t == Todo(old(nextId), dto.note, dto.status, AssignedOrder(dto.order, old(rows)), dto.userId, now)
      ensures rows == old(rows) + [t]
    {
      var order := dto.order;
      if !TruthyInt(order) {
        order := Some(NextOrder(rows));
      }
      t := Todo(nextId, dto.note, dto.status, order.value, dto.userId, now);
      rows := rows + [t];
      nextId := nextId + 1;
    }

    method FindAll() returns (r: seq<Todo>)
      ensures SortedBy(r, OrderKey)
      ensures multiset(r) == multiset(rows)
      ensures r == Listing(rows, Everything)
    {
      r := Listing(rows, Everything);
      SelectEverything(rows);
    }

    method FindOne(id: int) returns (r: Result<Todo>)
      ensures r.Ok? <==> exists t :: t in rows && t.id == id
      ensures r.Ok? ==> r.value in rows && r.value.id == id
      ensures r.Err? ==> r.error == NotFound("Todo", id)
    {
      var found := FindById(rows, id);
      if found.None? {
        r := Err(NotFound("Todo", id));
      } else {
        r := Ok(found.value);
      }
    }

    /** Patch the row with this id, or report `NotFound` and change nothing. */
    method Update(id: int, patch: TodoPatch) returns (r: Result<Todo>)
      requires Valid()
      modifies this
      ensures Valid() && nextId == old(nextId)
      ensures FindById(old(rows), id).None? ==> r == Err(NotFound("Todo", id)) && rows == old(rows)
      ensures FindById(old(rows), id).Some? ==> r == Ok(ApplyPatch(FindById(old(rows), id).value, patch))
      ensures |rows| == |old(rows)|
      ensures forall i :: 0 <= i < |rows| ==>
                rows[i] == if old(rows[i]).id == id then ApplyPatch(old(rows[i]), patch) else old(rows[i])
    {
      var found := FindById(rows, id);
      if found.None? {
        r := Err(NotFound("Todo", id));
        return;
      }
      var old_rows := rows;
      rows := seq(|old_rows|, i requires 0 <= i < |old_rows| =>
                if old_rows[i].id == id then ApplyPatch(old_rows[i], patch) else old_rows[i]);
      assert forall t :: t in rows ==> exists i :: 0 <= i < |rows| && rows[i] == t && rows[i].id == old_rows[i].id;
      r := Ok(ApplyPatch(found.value, patch));
    }

    /** Delete every row with this id. The in-memory store never fails, so
        this never reports `NotFound`, also for an id no row has. */
    method Remove(id: int)
      requires Valid()
      modifies this
      ensures Valid() && nextId == old(nextId)
      ensures rows == WithoutId(old(rows), id)
      ensures FindById(rows, id).None?
    {
      rows := WithoutId(rows, id);
    }

    /** Overwrite one row's rank; ranks need not be unique. */
    method UpdateOrder(id: int, newOrder: int) returns (r: Result<Todo>)
      requires Valid()
      modifies this
      ensures Valid() && nextId == old(nextId)
      ensures FindById(old(rows), id).None? ==> r == Err(NotFound("Todo", id)) && rows == old(rows)
      ensures FindById(old(rows), id).Some? ==> r == Ok(FindById(old(rows), id).value.(order := newOrder))
      ensures |rows| == |old(rows)|
      ensures forall i :: 0 <= i < |rows| ==>
                rows[i] == if old(rows[i]).id == id then old(rows[i]).(order := newOrder) else old(rows[i])
    {
      var found := FindById(rows, id);
      if found.None? {
        r := Err(NotFound("Todo", id));
        return;
      }
      var old_rows := rows;
      rows := seq(|old_rows|, i requires 0 <= i < |old_rows| =>
                if old_rows[i].id == id then old_rows[i].(order := newOrder) else old_rows[i]);
      assert forall t :: t in rows ==> exists i :: 0 <= i < |rows| && rows[i] == t && rows[i].id == old_rows[i].id;
      r := Ok(found.value.(order := newOrder));
    }

    method FindByStatus(status: Status) returns (r: seq<Todo>)
      ensures SortedBy(r, OrderKey)
      ensures forall t :: t in r <==> t in rows && t.status == status
      ensures multiset(r) == multiset(Select(rows, WithStatus(status)))
      ensures r == Listing(rows, WithStatus(status))
    {
      r := Listing(rows, WithStatus(status));
    }

    method FindByUserId(userId: int) returns (r: seq<Todo>)
      ensures SortedBy(r, OrderKey)
      ensures forall t :: t in r <==> t in rows && t.userId == Some(userId)
      ensures multiset(r) == multiset(Select(rows, OwnedBy(userId)))
      ensures r == Listing(rows, OwnedBy(userId))
    {
      r := Listing(rows, OwnedBy(userId));
    }
  }

  lemma {:induction false} SelectEverything(rows: seq<Todo>)
    ensures Select(rows, Everything) == rows
  {
    if rows != [] {
      SelectEverything(rows[1..]);
      assert rows == [rows[0]] + rows[1..];
    }
  }
}
