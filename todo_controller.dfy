/** The todo routes (src/todo/todo.controller.ts). Every route sits behind
    the JWT guard; the authenticated user arrives as an `AuthUser`. */
module TodoApi {
  import opened Common
  import opened Ordering
  import opened TodoDto
  import opened Todos
  import opened Jwt

  /** `create` overwrites the owner with the authenticated user's id. */
  function StampOwner(dto: CreateTodoDto, userId: int): (d: CreateTodoDto)
    ensures d.userId == Some(userId)
    ensures d.note == dto.note && d.status == dto.status && d.order == dto.order
  {
    dto.(userId := Some(userId))
  }

  /** `userId || req.user.userId`: the query's user when it is truthy. */
  function TargetUser(queryUserId: Option<int>, authUserId: int): (u: int)
    ensures TruthyInt(queryUserId) ==> u == queryUserId.value
    ensures !TruthyInt(queryUserId) ==> u == authUserId
  {
    if TruthyInt(queryUserId) then queryUserId.value else authUserId
  }

  /** The query `findAll` answers: a truthy target user restricts to that
      owner, a status restricts to that status, and both together conjoin. */
  function ListQuery(status: Option<Status>, target: int): (q: Query)
    ensures forall t :: Matches(q, t) <==>
              (target != 0 ==> t.userId == Some(target)) && (status.Some? ==> t.status == status.value)
  {
    if target != 0 then
      if status.Some? then OwnedByWithStatus(target, status.value) else OwnedBy(target)
    else if status.Some? then WithStatus(status.value)
    else Everything
  }

  class TodoController {
    const service: TodoService

    ghost predicate Valid()
      reads this, service
    {
      service.Valid()
    }

    constructor (service: TodoService)
      requires service.Valid()
      ensures this.service == service && Valid()
    {
      this.service := service;
    }

    method Create(dto: CreateTodoDto, user: AuthUser, now: nat) returns (t: Todo)
      requires Valid()
      modifies service
      ensures Valid()
      ensures t.userId == Some(user.userId)
      ensures t == Todo(old(service.nextId), dto.note, dto.status,
                        AssignedOrder(dto.order, old(service.rows)), Some(user.userId), now)
      ensures service.rows == old(service.rows) + [t]
    {
      var stamped := StampOwner(dto, user.userId);
      t := service.Create(stamped, now);
    }

    /** The owner/status dispatch, with the status applied after the fetch
        when both are given. */
    method FindAll(status: Option<Status>, queryUserId: Option<int>, user: AuthUser) returns (r: seq<Todo>)
      ensures SortedBy(r, OrderKey)
      ensures forall t :: t in r <==>
                t in service.rows
                && (TargetUser(queryUserId, user.userId) != 0 ==> t.userId == Some(TargetUser(queryUserId, user.userId)))
                && (status.Some? ==> t.status == status.value)
      ensures r == Listing(service.rows, ListQuery(status, TargetUser(queryUserId, user.userId)))
    {
      var target := TargetUser(queryUserId, user.userId);
      if target != 0 {
        var owned := service.FindByUserId(target);
        if status.Some? {
          r := Select(owned, WithStatus(status.value));
          TwoStageListing(service.rows, target, status.value);
        } else {
          r := owned;
        }
      } else if status.Some? {
        r := service.FindByStatus(status.value);
      } else {
        r := service.FindAll();
      }
    }

    /** No ownership check: any authenticated user may read any todo. */
    method FindOne(id: int) returns (r: Result<Todo>)
      ensures r.Ok? <==> exists t :: t in service.rows && t.id == id
      ensures r.Ok? ==> r.value in service.rows && r.value.id == id
      ensures r.Err? ==> r.error == NotFound("Todo", id)
    {
      r := service.FindOne(id);
    }

    method Update(id: int, patch: TodoPatch) returns (r: Result<Todo>)
      requires Valid()
      modifies service
      ensures Valid()
      ensures FindById(old(service.rows), id).None? ==> r == Err(NotFound("Todo", id)) && service.rows == old(service.rows)
      ensures FindById(old(service.rows), id).Some? ==> r == Ok(ApplyPatch(FindById(old(service.rows), id).value, patch))
      ensures |service.rows| == |old(service.rows)|
      ensures forall i :: 0 <= i < |service.rows| ==>
                service.rows[i] == if old(service.rows[i]).id == id then ApplyPatch(old(service.rows[i]), patch)
                                   else old(service.rows[i])
    {
      r := service.Update(id, patch);
    }

    method UpdateOrder(id: int, order: int) returns (r: Result<Todo>)
      requires Valid()
      modifies service
      ensures Valid()
      ensures FindById(old(service.rows), id).None? ==> r == Err(NotFound("Todo", id)) && service.rows == old(service.rows)
      ensures FindById(old(service.rows), id).Some? ==> r == Ok(FindById(old(service.rows), id).value.(order := order))
      ensures |service.rows| == |old(service.rows)|
      ensures forall i :: 0 <= i < |service.rows| ==>
                service.rows[i] == if old(service.rows[i]).id == id then old(service.rows[i]).(order := order)
                                   else old(service.rows[i])
    {
      r := service.UpdateOrder(id, order);
    }

    method Remove(id: int)
      requires Valid()
      modifies service
      ensures Valid()
      ensures service.rows == WithoutId(old(service.rows), id)
      ensures FindById(service.rows, id).None?
    {
      service.Remove(id);
    }
  }
}
