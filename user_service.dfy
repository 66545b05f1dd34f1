/** The credential store (src/user/user.service.ts) over an in-memory
    `user` table. The table carries the unique constraint on `email` that
    the entity declares (src/entities/user.entity.ts), so the store itself
    rejects a write that would duplicate an email. */
module Users {
  import opened Common
  import opened Ordering

  /** One row of the `user` table; `password` holds whatever the caller
      stored (the auth workflow stores a hash). */
  datatype User = User(id: int, email: string, password: string, fullname: string, createdAt: nat)

  datatype CreateUserDto = CreateUserDto(email: string, password: string, fullname: string)

  /** The body of an update: a field that is absent is left as it is. */
  datatype UserPatch = UserPatch(email: Option<string>, password: Option<string>, fullname: Option<string>)

  const EmailTakenMessage: string := "User with this email already exists"

  ghost predicate UniqueIds(rows: seq<User>) {
    forall i, j :: 0 <= i < |rows| && 0 <= j < |rows| && rows[i].id == rows[j].id ==> i == j
  }

  ghost predicate UniqueEmails(rows: seq<User>) {
    forall i, j :: 0 <= i < |rows| && 0 <= j < |rows| && rows[i].email == rows[j].email ==> i == j
  }

  /** `SELECT ... WHERE email = email`, in table order. */
  function WithEmail(rows: seq<User>, email: string): (r: seq<User>)
    ensures |r| <= |rows|
  {
    if rows == [] then []
    else (if rows[0].email == email then [rows[0]] else []) + WithEmail(rows[1..], email)
  }

  lemma {:induction false} WithEmailMembers(rows: seq<User>, email: string)
    ensures forall u :: u in WithEmail(rows, email) <==> u in rows && u.email == email
  {
    if rows != [] {
      WithEmailMembers(rows[1..], email);
      assert rows == [rows[0]] + rows[1..];
    }
  }

  /** With unique emails at most one row has a given email. */
  lemma {:induction false} AtMostOneWithEmail(rows: seq<User>, email: string)
    requires UniqueEmails(rows)
    ensures |WithEmail(rows, email)| <= 1
  {
    if rows != [] {
      assert UniqueEmails(rows[1..]) by {
        forall i, j | 0 <= i < |rows[1..]| && 0 <= j < |rows[1..]| && rows[1..][i].email == rows[1..][j].email
          ensures i == j
        {
          assert rows[i + 1].email == rows[j + 1].email;
        }
      }
      AtMostOneWithEmail(rows[1..], email);
      if rows[0].email == email {
        forall u | u in rows[1..] ensures u.email != email {
          var m :| 0 <= m < |rows[1..]| && rows[1..][m] == u;
          assert rows[m + 1] == u;
        }
        WithEmailNone(rows[1..], email);
      }
    }
  }

  lemma {:induction false} WithEmailNone(rows: seq<User>, email: string)
    requires forall u :: u in rows ==> u.email != email
    ensures WithEmail(rows, email) == []
  {
    if rows != [] {
      assert rows[0] in rows;
      assert forall u :: u in rows[1..] ==> u in rows;
      WithEmailNone(rows[1..], email);
    }
  }

  /** The email filter distributes over appending rows. */
  lemma {:induction false} WithEmailAppend(a: seq<User>, b: seq<User>, email: string)
    ensures WithEmail(a + b, email) == WithEmail(a, email) + WithEmail(b, email)
  {
    if a == [] {
      assert a + b == b;
    } else {
      var head := if a[0].email == email then [a[0]] else [];
      WithEmailAppend(a[1..], b, email);
      assert (a + b)[0] == a[0] && (a + b)[1..] == a[1..] + b;
      calc {
        WithEmail(a + b, email);
        head + WithEmail(a[1..] + b, email);
        head + (WithEmail(a[1..], email) + WithEmail(b, email));
        (head + WithEmail(a[1..], email)) + WithEmail(b, email);
      }
    }
  }

  /** `.eq('email', email).single()`: a row only when exactly one matches. */
  function EmailLookup(rows: seq<User>, email: string): (r: Option<User>)
    ensures r.Some? ==> r.value in rows && r.value.email == email
    ensures r.Some? <==> |WithEmail(rows, email)| == 1
  {
    WithEmailMembers(rows, email);
    var matches := WithEmail(rows, email);
    if |matches| == 1 then Some(matches[0]) else None
  }

  /** Under unique emails the lookup misses exactly when no row has the email. */
  lemma EmailLookupComplete(rows: seq<User>, email: string)
    requires UniqueEmails(rows)
    ensures EmailLookup(rows, email).None? <==> forall u :: u in rows ==> u.email != email
  {
    AtMostOneWithEmail(rows, email);
    WithEmailMembers(rows, email);
    if exists u :: u in rows && u.email == email {
      var u :| u in rows && u.email == email;
      assert u in WithEmail(rows, email);
    }
  }

  /** The row with this id, if any. */
  function IdLookup(rows: seq<User>, id: int): (r: Option<User>)
    ensures r.Some? ==> r.value in rows && r.value.id == id
    ensures r.None? <==> forall u :: u in rows ==> u.id != id
  {
    if rows == [] then None
    else if rows[0].id == id then Some(rows[0])
    else IdLookup(rows[1..], id)
  }

  /** The table after `DELETE ... WHERE id = id`. */
  function WithoutUser(rows: seq<User>, id: int): (r: seq<User>)
    ensures forall u :: u in r <==> u in rows && u.id != id
  {
    if rows == [] then []
    else
      assert forall u :: u in rows[1..] ==> u in rows;
      (if rows[0].id == id then [] else [rows[0]]) + WithoutUser(rows[1..], id)
  }

  /** A row whose id and email no later row has can go first. */
  lemma ConsUnique(x: User, s: seq<User>)
    requires UniqueIds(s) && UniqueEmails(s)
    requires forall u :: u in s ==> u.id != x.id && u.email != x.email
    ensures UniqueIds([x] + s) && UniqueEmails([x] + s)
  {
  }

  lemma TailUnique(rows: seq<User>)
    requires rows != [] && UniqueIds(rows) && UniqueEmails(rows)
    ensures UniqueIds(rows[1..]) && UniqueEmails(rows[1..])
    ensures forall u :: u in rows[1..] ==> u.id != rows[0].id && u.email != rows[0].email
  {
  }

  /** Deleting rows keeps ids and emails unique. */
  lemma {:induction false} WithoutUserUnique(rows: seq<User>, id: int)
    requires UniqueIds(rows) && UniqueEmails(rows)
    ensures UniqueIds(WithoutUser(rows, id)) && UniqueEmails(WithoutUser(rows, id))
  {
    if rows != [] {
      TailUnique(rows);
      WithoutUserUnique(rows[1..], id);
      var rest := WithoutUser(rows[1..], id);
      if rows[0].id != id {
        assert forall u :: u in rest ==> u in rows[1..];
        ConsUnique(rows[0], rest);
        assert WithoutUser(rows, id) == [rows[0]] + rest;
      } else {
        assert WithoutUser(rows, id) == rest;
      }
    }
  }

  /** The rows, other than the one with this id, that hold `email`:
      `.eq('email', email).neq('id', id)`. */
  function OthersWithEmail(rows: seq<User>, email: string, id: int): (r: seq<User>)
    ensures forall u :: u in r <==> u in rows && u.email == email && u.id != id
  {
    WithEmailMembers(WithoutUser(rows, id), email);
    WithEmail(WithoutUser(rows, id), email)
  }

  /** Apply the fields an update supplies; id and creation time stay. */
  function ApplyUserPatch(u: User, p: UserPatch): (r: User)
    ensures r.id == u.id && r.createdAt == u.createdAt
    ensures r.email == (if p.email.Some? then p.email.value else u.email)
    ensures r.password == (if p.password.Some? then p.password.value else u.password)
    ensures r.fullname == (if p.fullname.Some? then p.fullname.value else u.fullname)
  {
    User(u.id,
         if p.email.Some? then p.email.value else u.email,
         if p.password.Some? then p.password.value else u.password,
         if p.fullname.Some? then p.fullname.value else u.fullname,
         u.createdAt)
  }

  /** The sort key of `ORDER BY created_at DESC`: newest first. */
  function NewestFirst(u: User): int {
    -(u.createdAt as int)
  }

  class UserService {
    var rows: seq<User>
    var nextId: int

    ghost predicate Valid()
      reads this
    {
      UniqueIds(rows) && UniqueEmails(rows) && forall u :: u in rows ==> u.id < nextId
    }

    constructor ()
      ensures Valid() && rows == []
    {
      rows := [];
      nextId := 1;
    }

    /** Insert a user unless the email is taken, which is a `Conflict`. */
    method Create(dto: CreateUserDto, now: nat) returns (r: Result<User>)
      requires Valid()
      modifies this
      ensures Valid()
      ensures EmailLookup(old(rows), dto.email).Some? ==>
                r == Err(Conflict(EmailTakenMessage)) && rows == old(rows) && nextId == old(nextId)
      ensures EmailLookup(old(rows), dto.email).None? ==>
                r == Ok(User(old(nextId), dto.email, dto.password, dto.fullname, now))
                && rows == old(rows) + [r.value]
    {
      var existing := EmailLookup(rows, dto.email);
      if existing.Some? {
        r := Err(Conflict(EmailTakenMessage));
        return;
      }
      EmailLookupComplete(rows, dto.email);
      var user := User(nextId, dto.email, dto.password, dto.fullname, now);
      rows := rows + [user];
      nextId := nextId + 1;
      r := Ok(user);
    }

    /** Every user, newest first. */
    method FindAll() returns (r: seq<User>)
      ensures forall i, j :: 0 <= i < j < |r| ==> r[i].createdAt >= r[j].createdAt
      ensures multiset(r) == multiset(rows)
    {
      r := SortBy(rows, NewestFirst);
      SortByCorrect(rows, NewestFirst);
      forall i, j | 0 <= i < j < |r| ensures r[i].createdAt >= r[j].createdAt {
        assert NewestFirst(r[i]) <= NewestFirst(r[j]);
      }
    }

    method FindOne(id: int) returns (r: Result<User>)
      ensures r.Ok? <==> exists u :: u in rows && u.id == id
      ensures r.Ok? ==> r.value in rows && r.value.id == id
      ensures r.Err? ==> r.error == NotFound("User", id)
    {
      var found := IdLookup(rows, id);
      if found.None? {
        r := Err(NotFound("User", id));
      } else {
        r := Ok(found.value);
      }
    }

    /** The single user with this email, or none: a failed `.single()` is `null`. */
    method FindByEmail(email: string) returns (r: Option<User>)
      requires Valid()
      ensures r.Some? ==> r.value in rows && r.value.email == email
      ensures r.None? <==> forall u :: u in rows ==> u.email != email
      ensures r == EmailLookup(rows, email)
    {
      r := EmailLookup(rows, email);
      EmailLookupComplete(rows, email);
    }

    /** Patch one user. A truthy email held by exactly one other user is a
        `Conflict`; a missing id, or a write the unique constraint refuses,
        is `NotFound`. */
    method Update(id: int, patch: UserPatch) returns (r: Result<User>)
      requires Valid()
      modifies this
      ensures Valid() && nextId == old(nextId)
      ensures TruthyString(patch.email) && |OthersWithEmail(old(rows), patch.email.value, id)| == 1 ==>
                r == Err(Conflict(EmailTakenMessage))
      ensures r.Ok? <==>
                !(TruthyString(patch.email) && |OthersWithEmail(old(rows), patch.email.value, id)| == 1)
                && IdLookup(old(rows), id).Some?
                && !(patch.email.Some? && OthersWithEmail(old(rows), patch.email.value, id) != [])
      ensures r.Err? ==> rows == old(rows)
      ensures r.Err? && !r.error.Conflict? ==> r.error == NotFound("User", id)
      ensures r.Ok? ==> r.value == ApplyUserPatch(IdLookup(old(rows), id).value, patch)
      ensures r.Ok? ==> |rows| == |old(rows)| && forall i :: 0 <= i < |rows| ==>
                rows[i] == if old(rows[i]).id == id then ApplyUserPatch(old(rows[i]), patch) else old(rows[i])
    {
      if TruthyString(patch.email) && |OthersWithEmail(rows, patch.email.value, id)| == 1 {
        r := Err(Conflict(EmailTakenMessage));
        return;
      }
      var found := IdLookup(rows, id);
      if found.None? {
        r := Err(NotFound("User", id));
        return;
      }
      if patch.email.Some? && OthersWithEmail(rows, patch.email.value, id) != [] {
        // the unique constraint refuses the write; the store's error is reported as NotFound
        r := Err(NotFound("User", id));
        return;
      }
      var old_rows := rows;
      rows := seq(|old_rows|, i requires 0 <= i < |old_rows| =>
                if old_rows[i].id == id then ApplyUserPatch(old_rows[i], patch) else old_rows[i]);
      PatchKeepsUnique(old_rows, rows, id, patch);
      r := Ok(ApplyUserPatch(found.value, patch));
    }

    /** Delete every user with this id; the store never fails, so this
        never reports `NotFound`. */
    method Remove(id: int)
      requires Valid()
      modifies this
      ensures Valid() && nextId == old(nextId)
      ensures rows == WithoutUser(old(rows), id)
      ensures IdLookup(rows, id).None?
    {
      WithoutUserUnique(rows, id);
      rows := WithoutUser(rows, id);
    }
  }

  /** Patching the one row with this id keeps ids and emails unique when no
      other row holds the new email. */
  lemma PatchKeepsUnique(rows: seq<User>, patched: seq<User>, id: int, p: UserPatch)
    requires UniqueIds(rows) && UniqueEmails(rows)
    requires p.email.Some? ==> OthersWithEmail(rows, p.email.value, id) == []
    requires |patched| == |rows|
    requires forall i :: 0 <= i < |rows| ==>
               patched[i] == if rows[i].id == id then ApplyUserPatch(rows[i], p) else rows[i]
    ensures UniqueIds(patched) && UniqueEmails(patched)
    ensures forall u :: u in patched ==> exists v :: v in rows && v.id == u.id
  {
  }
}
