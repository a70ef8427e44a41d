/** User registration: the first sign-in of a Google account stores the user once;
    later sign-ins find the stored user and change nothing. */
module AuthController {
  import opened Wrappers
  import opened MailTypes

  /** A row of the `users` table. */
  datatype UserRow = UserRow(id: nat, googleId: string, name: string, email: string, picture: Option<string>)

  /** The body of a registration request; absent fields are `None`. */
  datatype RegisterRequest = RegisterRequest(
    googleId: Option<string>,
    name: Option<string>,
    email: Option<string>,
    picture: Option<string>)

  /** The number of rows with the given Google id. */
  function CountGoogleId(rows: seq<UserRow>, googleId: string): nat
    decreases |rows|
  {
    if rows == [] then 0 else (if rows[0].googleId == googleId then 1 else 0) + CountGoogleId(rows[1..], googleId)
  }

  /** The table's two unique columns: no two rows share a Google id or an address. */
  predicate Unique(rows: seq<UserRow>) {
    forall i, j :: 0 <= i < j < |rows| ==> rows[i].googleId != rows[j].googleId && rows[i].email != rows[j].email
  }

  /** In a table whose Google ids are unique, an id that occurs occurs exactly once. */
  lemma {:induction false} UniqueCount(rows: seq<UserRow>, googleId: string)
    requires Unique(rows)
    ensures CountGoogleId(rows, googleId) <= 1
    ensures CountGoogleId(rows, googleId) == 1 <==> exists i :: 0 <= i < |rows| && rows[i].googleId == googleId
    decreases |rows|
  {
    if rows != [] {
      var rest := rows[1..];
      assert Unique(rest) by {
        forall i, j | 0 <= i < j < |rest|
          ensures rest[i].googleId != rest[j].googleId && rest[i].email != rest[j].email
        {
          assert rest[i] == rows[i + 1] && rest[j] == rows[j + 1];
        }
      }
      UniqueCount(rest, googleId);
      if rows[0].googleId == googleId {
        forall k | 0 <= k < |rest|
          ensures rest[k].googleId != googleId
        {
          assert rest[k] == rows[k + 1];
        }
        NoneCounted(rest, googleId);
      }
      if exists i :: 0 <= i < |rows| && rows[i].googleId == googleId {
        var i :| 0 <= i < |rows| && rows[i].googleId == googleId;
        if i > 0 {
          assert rest[i - 1].googleId == googleId;
        }
      }
    }
  }

  lemma {:induction false} NoneCounted(rows: seq<UserRow>, googleId: string)
    requires forall k :: 0 <= k < |rows| ==> rows[k].googleId != googleId
    ensures CountGoogleId(rows, googleId) == 0
    decreases |rows|
  {
    if rows != [] {
      NoneCounted(rows[1..], googleId);
    }
  }

  class UserTable {
    var rows: seq<UserRow>
    var nextId: nat

    ghost predicate Valid()
      reads this
    {
      Unique(rows) && forall i :: 0 <= i < |rows| ==> rows[i].id < nextId
    }

    constructor ()
      ensures Valid() && rows == [] && nextId == 1
    {
      rows, nextId := [], 1;
    }

    /** `select ... where googleId`: whether a row has that Google id. */
    function HasGoogleId(googleId: string): (r: bool)
      reads this
      ensures r <==> exists i :: 0 <= i < |rows| && rows[i].googleId == googleId
    {
      exists i :: 0 <= i < |rows| && rows[i].googleId == googleId
    }

    /** `insert`: appends a row, unless a column constraint refuses it (a missing name,
        or a Google id or address already stored), in which case no row changes. The
        serial id is drawn either way, as a database sequence does. */
    method Insert(googleId: string, name: Option<string>, email: string, picture: Option<string>) returns (ok: bool)
      requires Valid()
      modifies this
      ensures Valid()
      ensures ok <==> name.Some? && forall i :: 0 <= i < |old(rows)| ==> old(rows)[i].googleId != googleId && old(rows)[i].email != email
      ensures ok ==> rows == old(rows) + [UserRow(old(nextId), googleId, name.value, email, picture)]
      ensures !ok ==> rows == old(rows)
      ensures nextId == old(nextId) + 1
    {
      ok := name.Some? && forall i :: 0 <= i < |rows| ==> rows[i].googleId != googleId && rows[i].email != email;
      if ok {
        rows := rows + [UserRow(nextId, googleId, name.value, email, picture)];
      }
      nextId := nextId + 1;
    }
  }

  /** `registerUser`: 400 without Google id or address; 200 when a user with that
      Google id exists; otherwise one insert and 201, or 500 when the table refuses
      the row. Whenever the answer is 200 or 201, exactly one user has that Google id. */
  method RegisterUser(table: UserTable, req: RegisterRequest) returns (code: nat)
    requires table.Valid()
    modifies table
    ensures table.Valid()
    ensures !Truthy(req.googleId) || !Truthy(req.email) ==> code == 400 && table.rows == old(table.rows)
    ensures Truthy(req.googleId) && Truthy(req.email) ==>
      if old(table.HasGoogleId(req.googleId.value)) then
        code == 200 && table.rows == old(table.rows)
      else if req.name.Some? && forall i :: 0 <= i < |old(table.rows)| ==> old(table.rows)[i].email != req.email.value then
        code == 201 && table.rows == old(table.rows) + [UserRow(old(table.nextId), req.googleId.value, req.name.value, req.email.value, req.picture)]
      else
        code == 500 && table.rows == old(table.rows)
    ensures code == 200 || code == 201 ==> req.googleId.Some? && CountGoogleId(table.rows, req.googleId.value) == 1
  {
    if !Truthy(req.googleId) || !Truthy(req.email) {
      return 400;
    }
    var googleId := req.googleId.value;
    if table.HasGoogleId(googleId) {
      UniqueCount(table.rows, googleId);
      return 200;
    }
    var ok := table.Insert(googleId, req.name, req.email.value, req.picture);
    if ok {
      assert table.rows[|table.rows| - 1].googleId == googleId;
      UniqueCount(table.rows, googleId);
      return 201;
    }
    code := 500;
  }

  /** Registering the same account twice stores it once: the second registration
      answers 200 and changes nothing. */
  method RegisterTwice(table: UserTable, req: RegisterRequest) returns (first: nat, second: nat)
    requires table.Valid()
    modifies table
    ensures table.Valid()
    ensures first == 200 || first == 201 ==>
      && req.googleId.Some?
      && second == 200
      && CountGoogleId(table.rows, req.googleId.value) == 1
    ensures first != 201 ==> table.rows == old(table.rows)
    ensures first == 201 ==> |table.rows| == |old(table.rows)| + 1
  {
    first := RegisterUser(table, req);
    var afterFirst := table.rows;
    second := RegisterUser(table, req);
    if first == 200 || first == 201 {
      UniqueCount(afterFirst, req.googleId.value);
    }
  }
}
