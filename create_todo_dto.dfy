/** The body of a create-todo request and the status enumeration
    (src/todo/dto/create-todo.dto.ts), with the checks the global
    validation pipe applies to it before the controller runs. */
module TodoDto {
  import opened Common

  datatype Status = Pending | InProgress | Completed

  /** The wire spelling of each status. */
  function StatusName(s: Status): (name: string)
    ensures name != ""
  {
    match s
    case Pending => "pending"
    case InProgress => "in_progress"
    case Completed => "completed"
  }

  /** The enum check: only the three spellings are accepted. */
  function ParseStatus(name: string): (r: Option<Status>)
    ensures r.Some? ==> StatusName(r.value) == name
    ensures forall s: Status :: name == StatusName(s) ==> r == Some(s)
  {
    if name == "pending" then Some(Pending)
    else if name == "in_progress" then Some(InProgress)
    else if name == "completed" then Some(Completed)
    else None
  }

  /** The status a create request gets when it names none. */
  const DefaultStatus: Status := Pending

  /** A validated create request. `order` and `userId` stay optional. */
  datatype CreateTodoDto = CreateTodoDto(
    note: string,
    status: Status,
    order: Option<int>,
    userId: Option<int>)

  /** The properties the class declares; with `forbidNonWhitelisted` any
      other property is itself a violation. */
  const CreateTodoFields: set<string> := {"note", "status", "order", "user_id"}

  /** `@IsOptional() @IsNumber()`: omitted, or a number. */
  predicate OptionalNumber(body: Body, name: string) {
    Omitted(body, name) || body[name].JNumber?
  }

  /** `@IsOptional() @IsEnum(TodoStatusEnum)`: omitted, or one of the spellings. */
  predicate OptionalStatus(body: Body) {
    Omitted(body, "status") || (body["status"].JString? && ParseStatus(body["status"].s).Some?)
  }

  /** Names of the properties that fail validation: the declared ones whose
      constraint fails, and every undeclared one. */
  function CreateTodoViolations(body: Body): (fields: set<string>)
    ensures "note" in fields <==> !("note" in body && body["note"].JString?)
    ensures "status" in fields <==>
              "status" in body && body["status"] != JNull
              && !(body["status"].JString? && ParseStatus(body["status"].s).Some?)
    ensures "order" in fields <==> "order" in body && body["order"] != JNull && !body["order"].JNumber?
    ensures "user_id" in fields <==> "user_id" in body && body["user_id"] != JNull && !body["user_id"].JNumber?
    ensures forall f :: f !in CreateTodoFields ==> (f in fields <==> f in body)
  {
    (if "note" in body && body["note"].JString? then {} else {"note"})
    + (if OptionalStatus(body) then {} else {"status"})
    + (if OptionalNumber(body, "order") then {} else {"order"})
    + (if OptionalNumber(body, "user_id") then {} else {"user_id"})
    + (body.Keys - CreateTodoFields)
  }

  /** An omitted optional number is absent; a present one is kept. */
  function NumberField(body: Body, name: string): (r: Option<int>)
    requires OptionalNumber(body, name)
    ensures r.None? <==> Omitted(body, name)
    ensures r.Some? ==> body[name] == JNumber(r.value)
  {
    if Omitted(body, name) then None else Some(body[name].n)
  }

  /** Validation and the class default: an omitted status becomes `pending`. */
  function ValidateCreateTodo(body: Body): (r: Result<CreateTodoDto>)
    ensures r.Ok? <==> "note" in body && body["note"].JString?
                       && (Omitted(body, "status") || (body["status"].JString? && ParseStatus(body["status"].s).Some?))
                       && (Omitted(body, "order") || body["order"].JNumber?)
                       && (Omitted(body, "user_id") || body["user_id"].JNumber?)
                       && body.Keys <= CreateTodoFields
    ensures r.Err? ==> r.error == ValidationFailure(CreateTodoViolations(body)) && r.error.fields != {}
    ensures r.Ok? ==> body["note"] == JString(r.value.note)
    ensures r.Ok? ==> (r.value.order.None? <==> Omitted(body, "order"))
                      && (r.value.order.Some? ==> body["order"] == JNumber(r.value.order.value))
    ensures r.Ok? ==> (r.value.userId.None? <==> Omitted(body, "user_id"))
                      && (r.value.userId.Some? ==> body["user_id"] == JNumber(r.value.userId.value))
    ensures r.Ok? && Omitted(body, "status") ==> r.value.status == DefaultStatus
    ensures r.Ok? && !Omitted(body, "status") ==> body["status"] == JString(StatusName(r.value.status))
  {
    var violations := CreateTodoViolations(body);
    if violations != {} then Err(ValidationFailure(violations))
    else
      assert forall f :: f in body ==> f in CreateTodoFields;
      var status := if Omitted(body, "status") then DefaultStatus else ParseStatus(body["status"].s).value;
      Ok(CreateTodoDto(body["note"].s, status, NumberField(body, "order"), NumberField(body, "user_id")))
  }

  /** The pipe does not convert: a rank sent as a string is refused. */
  lemma StringOrderRejected(note: string)
    ensures ValidateCreateTodo(map["note" := JString(note), "order" := JString("1")]).Err?
  {
  }
}
