/** The two account handlers of the Flask server: signup, which appends one
    row to the `users` table, and login, a read-only lookup. */
module Handlers {
  import opened Users

  /** The `users` table as the server holds it: its rows in insertion order
      and the AUTOINCREMENT counter that supplies the next `id`. */
  class UserStore {
    var rows: seq<User>
    var nextId: nat

    ghost predicate Valid()
      reads this
    {
      TableInvariant(rows, nextId)
    }

    /** `init_db` on a fresh database file: the table exists and is empty, and the
        first identifier AUTOINCREMENT hands out is 1. */
    constructor ()
      ensures Valid()
      ensures rows == [] && nextId == 1
    {
      rows := [];
      nextId := 1;
    }

    /** POST /signup. `fault` stands for an unexpected storage error raised
        after validation (the generic exception path); it carries the
        exception's text and the insert then writes nothing. */
    method Signup(body: Body, fault: Option<string>) returns (resp: Response)
      requires Valid()
      modifies this
      ensures Valid()
      ensures Candidate(old(nextId), body).None? ==>
        && resp == Response(400, MessageReply("All fields are required"))
        && rows == old(rows) && nextId == old(nextId)
      ensures Candidate(old(nextId), body).Some? && fault.Some? ==>
        && resp == Response(500, MessageReply("Server error: " + fault.value))
        && rows == old(rows) && nextId == old(nextId)
      ensures Candidate(old(nextId), body).Some? && fault.None? ==>
        var u := Candidate(old(nextId), body).value;
        if Taken(old(rows), u.username, u.email) then
          && resp == Response(400, MessageReply("Username or email already exists"))
          && rows == old(rows) && nextId == old(nextId)
        else
          && resp == Response(200, MessageReply("Signup successful"))
          && rows == old(rows) + [u] && nextId == old(nextId) + 1
      ensures resp.status == 200 ==>
        && |rows| == |old(rows)| + 1
        && rows[..|old(rows)|] == old(rows)
        && forall i :: 0 <= i < |old(rows)| ==> old(rows)[i].id < rows[|old(rows)|].id
      ensures resp.status != 200 ==> rows == old(rows) && nextId == old(nextId)
    {
      var candidate := Candidate(nextId, body);
      if candidate.None? {
        return Response(400, MessageReply("All fields are required"));
      }
      if fault.Some? {
        return Response(500, MessageReply("Server error: " + fault.value));
      }
      var u := candidate.value;
      if Taken(rows, u.username, u.email) {
        return Response(400, MessageReply("Username or email already exists"));
      }
      InsertKeepsInvariant(rows, nextId, u);
      rows := rows + [u];
      nextId := nextId + 1;
      resp := Response(200, MessageReply("Signup successful"));
    }
  }

  /** POST /login over the table's rows: 400 when either credential is
      missing or empty, whatever the table holds; otherwise 200 with the
      name and role of a row matching both values exactly, or 401 with one
      and the same reply whether the user is unknown or the password wrong. */
  function Login(rows: seq<User>, body: Body): (r: Response)
    ensures !(Truthy(Get(body, "username")) && Truthy(Get(body, "password"))) ==>
      r == Response(400, ErrorReply("Username and password are required"))
    ensures Truthy(Get(body, "username")) && Truthy(Get(body, "password")) ==>
      var username, password := Get(body, "username").value, Get(body, "password").value;
      && (r.status == 200 <==> exists i :: 0 <= i < |rows| && Matches(rows[i], username, password))
      && (r.status == 200 ==>
            exists i :: 0 <= i < |rows| && Matches(rows[i], username, password) &&
              r.reply == WelcomeReply("Login successful", rows[i].name, rows[i].role))
      && (r.status != 200 ==> r == Response(401, ErrorReply("Invalid username or password")))
  {
    var username, password := Get(body, "username"), Get(body, "password");
    if !Truthy(username) || !Truthy(password) then
      Response(400, ErrorReply("Username and password are required"))
    else
      match Select(rows, username.value, password.value)
      case Some(u) => Response(200, WelcomeReply("Login successful", u.name, u.role))
      case None => Response(401, ErrorReply("Invalid username or password"))
  }

  /** Round trip: after a signup has appended its row, a login with the same
      username and password answers 200 with the submitted name and role. */
  lemma LoginAfterSignup(rows: seq<User>, nextId: nat, body: Body, creds: Body)
    requires TableInvariant(rows, nextId)
    requires Candidate(nextId, body).Some?
    requires !Taken(rows, Candidate(nextId, body).value.username, Candidate(nextId, body).value.email)
    requires Get(creds, "username") == Get(body, "username")
    requires Get(creds, "password") == Get(body, "password")
    ensures Login(rows + [Candidate(nextId, body).value], creds) ==
      Response(200, WelcomeReply("Login successful", Get(body, "name").value, Get(body, "role").value))
  {
    var u := Candidate(nextId, body).value;
    InsertKeepsInvariant(rows, nextId, u);
    assert (rows + [u])[|rows|] == u;
    SelectFindsTheMatch(rows + [u], |rows|, u.username, u.password);
  }

  /** Login's answer on a table that satisfies the invariant is determined by
      the one row holding the username: when that row's password matches, its
      name and role come back. */
  lemma LoginReturnsTheMatchingRow(rows: seq<User>, nextId: nat, k: nat, creds: Body)
    requires TableInvariant(rows, nextId)
    requires k < |rows|
    requires Get(creds, "username") == Some(rows[k].username)
    requires Get(creds, "password") == Some(rows[k].password)
    ensures Login(rows, creds) == Response(200, WelcomeReply("Login successful", rows[k].name, rows[k].role))
  {

  }

  /** Round trip on the store itself: a signup with a complete body and
      fresh keys succeeds, and a login with the same username and password
      then answers with the submitted name and role. */
  method SignupThenLogin(store: UserStore, body: Body, creds: Body) returns (signup: Response, login: Response)
    requires store.Valid()
    requires Candidate(store.nextId, body).Some?
    requires !Taken(store.rows, Candidate(store.nextId, body).value.username, Candidate(store.nextId, body).value.email)
    requires Get(creds, "username") == Get(body, "username")
    requires Get(creds, "password") == Get(body, "password")
    modifies store
    ensures store.Valid()
    ensures signup == Response(200, MessageReply("Signup successful"))
    ensures login == Response(200, WelcomeReply("Login successful", Get(body, "name").value, Get(body, "role").value))
  {
    LoginAfterSignup(store.rows, store.nextId, body, creds);
    signup := store.Signup(body, None);
    login := Login(store.rows, creds);
  }

  /** A second signup under a username or email already registered is refused
      with the duplicate reply, and the first row stays as it was. */
  method SignupTwice(store: UserStore, first: Body, second: Body) returns (r1: Response, r2: Response)
    requires store.Valid()
    requires Candidate(store.nextId, first).Some?
    requires !Taken(store.rows, Candidate(store.nextId, first).value.username, Candidate(store.nextId, first).value.email)
    requires AllTruthy(second, RequiredFields)
    requires Get(second, "username") == Get(first, "username") || Get(second, "email") == Get(first, "email")
    modifies store
    ensures store.Valid()
    ensures r1 == Response(200, MessageReply("Signup successful"))
    ensures r2 == Response(400, MessageReply("Username or email already exists"))
    ensures store.rows == old(store.rows) + [Candidate(old(store.nextId), first).value]
  {
    var u := Candidate(store.nextId, first).value;
    var v := Candidate(store.nextId + 1, second).value;
    InsertedKeysAreTaken(store.rows, u, [], v.username, v.email);
    r1 := store.Signup(first, None);
    r2 := store.Signup(second, None);
  }
}
