/** The `users` table of the sign-language demo's account store: the shape of
    a row, the JSON bodies the two handlers receive and the replies they send,
    and the read-only queries the handlers run over the table. */
module Users {

  datatype Option<T> = None | Some(value: T)

  /** One row of the `users` table. */
  datatype User = User(
    id: nat,
    username: string,
    name: string,
    dob: string,
    gender: string,
    phone: string,
    email: string,
    role: string,
    password: string)

  /** A JSON request body whose members are all strings. A key that is absent
      is a missing field; the empty string is a present but falsy one. */
  type Body = map<string, string>

  /** The JSON object a handler answers with: signup always uses the key
      "message"; login uses "error" on failure and "message", "name", "role"
      on success. */
  datatype Reply =
    | MessageReply(message: string)
    | ErrorReply(error: string)
    | WelcomeReply(message: string, name: string, role: string)

  /** An HTTP status code with its JSON reply. */
  datatype Response = Response(status: int, reply: Reply)

  /** The fields signup insists on, in the order it checks them. */
  const RequiredFields: seq<string> :=
    ["username", "name", "dob", "gender", "phone", "email", "role", "password"]

  /** `data.get(key)`: the member's value, or None when the body lacks it. */
  function Get(body: Body, key: string): Option<string>
  {
    if key in body then Some(body[key]) else None
  }

  /** Python truthiness of a looked-up string: present and not empty. */
  predicate Truthy(v: Option<string>)
  {
    v.Some? && v.value != ""
  }

  /** `all(field in data and data[field] for field in fields)`. */
  function AllTruthy(body: Body, fields: seq<string>): (ok: bool)
    ensures ok <==> forall i :: 0 <= i < |fields| ==> Truthy(Get(body, fields[i]))
  {
    if |fields| == 0 then true
    else if !Truthy(Get(body, fields[0])) then false
    else
      var rest := AllTruthy(body, fields[1..]);
      assert forall i :: 1 <= i < |fields| ==> fields[i] == fields[1..][i - 1];
      rest
  }

  /** Every column of the row holds a non-empty string. */
  predicate Complete(u: User)
  {
    u.username != "" && u.name != "" && u.dob != "" && u.gender != "" &&
    u.phone != "" && u.email != "" && u.role != "" && u.password != ""
  }

  /** The row signup would insert with identifier `id`: present exactly when
      every required field is truthy, and then holding the eight submitted
      values verbatim. */
  function Candidate(id: nat, body: Body): (r: Option<User>)
    ensures r.Some? <==> AllTruthy(body, RequiredFields)
    ensures r.Some? ==> r.value.id == id && Complete(r.value)
    ensures r.Some? ==>
      Get(body, "username") == Some(r.value.username) &&
      Get(body, "name") == Some(r.value.name) &&
      Get(body, "dob") == Some(r.value.dob) &&
      Get(body, "gender") == Some(r.value.gender) &&
      Get(body, "phone") == Some(r.value.phone) &&
      Get(body, "email") == Some(r.value.email) &&
      Get(body, "role") == Some(r.value.role) &&
      Get(body, "password") == Some(r.value.password)
  {
    if AllTruthy(body, RequiredFields) then
      assert Truthy(Get(body, RequiredFields[0])) && Truthy(Get(body, RequiredFields[1])) &&
             Truthy(Get(body, RequiredFields[2])) && Truthy(Get(body, RequiredFields[3])) &&
             Truthy(Get(body, RequiredFields[4])) && Truthy(Get(body, RequiredFields[5])) &&
             Truthy(Get(body, RequiredFields[6])) && Truthy(Get(body, RequiredFields[7]));
      Some(User(id, body["username"], body["name"], body["dob"], body["gender"],
                body["phone"], body["email"], body["role"], body["password"]))
    else
      None
  }

  /** Whether a row with these keys would violate the UNIQUE constraint on
      `username` or the one on `email`. */
  function Taken(rows: seq<User>, username: string, email: string): (b: bool)
    ensures b <==> exists i :: 0 <= i < |rows| && (rows[i].username == username || rows[i].email == email)
  {
    if |rows| == 0 then false
    else if rows[0].username == username || rows[0].email == email then true
    else
      var rest := Taken(rows[1..], username, email);
      assert forall i :: 1 <= i < |rows| ==> rows[i] == rows[1..][i - 1];
      rest
  }

  /** The WHERE clause of the login query: both columns equal the inputs
      exactly (BINARY collation). */
  predicate Matches(u: User, username: string, password: string)
  {
    u.username == username && u.password == password
  }

  /** `SELECT ... WHERE username = ? AND password = ?` followed by
      `fetchone()`: some matching row, if any; under the UNIQUE constraint on
      `username` it is the only one. */
  function Select(rows: seq<User>, username: string, password: string): (r: Option<User>)
    ensures r.None? <==> forall i :: 0 <= i < |rows| ==> !Matches(rows[i], username, password)
    ensures r.Some? ==> exists i :: 0 <= i < |rows| && rows[i] == r.value && Matches(rows[i], username, password)
  {
    if |rows| == 0 then None
    else if Matches(rows[0], username, password) then Some(rows[0])
    else
      var rest := Select(rows[1..], username, password);
      assert forall i :: 1 <= i < |rows| ==> rows[i] == rows[1..][i - 1];
      rest
  }

  /** The UNIQUE constraints: no two rows share a username, and no two rows
      share an email. */
  ghost predicate UniqueKeys(rows: seq<User>)
  {
    forall i, j :: 0 <= i < j < |rows| ==>
      rows[i].username != rows[j].username && rows[i].email != rows[j].email
  }

  /** What the table satisfies between requests: the UNIQUE constraints, every
      column filled, the AUTOINCREMENT counter `nextId` at least 1, and the
      identifiers at least 1, strictly increasing in insertion order and all
      below the counter. */
  ghost predicate TableInvariant(rows: seq<User>, nextId: nat)
  {
    && 1 <= nextId
    && UniqueKeys(rows)
    && (forall i :: 0 <= i < |rows| ==> 1 <= rows[i].id < nextId && Complete(rows[i]))
    && (forall i, j :: 0 <= i < j < |rows| ==> rows[i].id < rows[j].id)
  }

  /** An insert that passed the UNIQUE checks and took the counter's value
      keeps the table invariant once the counter advances. */
  lemma InsertKeepsInvariant(rows: seq<User>, nextId: nat, u: User)
    requires TableInvariant(rows, nextId)
    requires u.id == nextId && Complete(u)
    requires !Taken(rows, u.username, u.email)
    ensures TableInvariant(rows + [u], nextId + 1)
  {

  }

  /** Under the UNIQUE constraint on username, at most one row matches a
      credential pair, so the lookup returns that row whatever the table order. */
  lemma SelectFindsTheMatch(rows: seq<User>, k: nat, username: string, password: string)
    requires UniqueKeys(rows)
    requires k < |rows| && Matches(rows[k], username, password)
    ensures Select(rows, username, password) == Some(rows[k])
  {

  }

  /** Once a row is in the table, every later insert sharing its username or
      its email is refused by the UNIQUE constraints, whatever rows were
      appended in between. */
  lemma InsertedKeysAreTaken(rows: seq<User>, u: User, later: seq<User>, username: string, email: string)
    requires username == u.username || email == u.email
    ensures Taken(rows + [u] + later, username, email)
  {
    assert (rows + [u] + later)[|rows|] == u;
  }
}
