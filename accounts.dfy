/** The user table: registration and the credential check behind `login`.
    Passwords are compared for equality only, as the source does. */
module Accounts {
  import opened Rows

  /** Users are never deleted, so a user's id is its position plus one (SQLite
      hands out the largest id plus one); no two users share an email. */
  predicate UsersValid(users: seq<User>)
  {
    && (forall k :: 0 <= k < |users| ==> users[k].id == k + 1)
    && (forall i, j :: 0 <= i < j < |users| ==> users[i].email != users[j].email)
  }

  /** `User.query.filter_by(email=email).first()` finds a row. */
  predicate HasEmail(users: seq<User>, email: string)
  {
    exists k :: 0 <= k < |users| && users[k].email == email
  }

  predicate Credentials(u: User, email: string, password: string)
  {
    u.email == email && u.password == password
  }

  /** `login`: the id of the first user whose email and password both equal
      the ones given, or InvalidLogin when there is none. */
  function Authenticate(users: seq<User>, email: string, password: string): (r: Result<nat>)
    ensures r.Err? <==> forall k :: 0 <= k < |users| ==> !Credentials(users[k], email, password)
    ensures r.Err? ==> r.error == InvalidLogin
    ensures r.Ok? ==> exists k :: 0 <= k < |users| && Credentials(users[k], email, password) && users[k].id == r.value
  {
    if users == [] then Err(InvalidLogin)
    else if Credentials(users[0], email, password) then Ok(users[0].id)
    else
      var r := Authenticate(users[1..], email, password);
      assert r.Ok? ==> exists k :: 1 <= k < |users| && Credentials(users[k], email, password) && users[k].id == r.value by {
        if r.Ok? {
          var k :| 0 <= k < |users[1..]| && Credentials(users[1..][k], email, password) && users[1..][k].id == r.value;
          assert users[k + 1] == users[1..][k];
        }
      }
      r
  }

  /** The table a successful `register` leaves: the old users and one more. */
  function WithUser(users: seq<User>, name: string, email: string, password: string): (r: seq<User>)
    ensures |r| == |users| + 1 && r[..|users|] == users
    ensures r[|users|].id == |users| + 1
    ensures forall e :: HasEmail(r, e) <==> HasEmail(users, e) || e == email
  {
    var r := users + [User(|users| + 1, name, email, password)];
    assert r[|users|].email == email;
    assert forall k :: 0 <= k < |users| ==> r[k] == users[k];
    r
  }

  /** Adding a user under a fresh email keeps ids positional and emails
      unique, and the email is then taken by the new user alone. */
  lemma RegisterKeepsUsersValid(users: seq<User>, name: string, email: string, password: string)
    requires UsersValid(users)
    requires !HasEmail(users, email)
    ensures UsersValid(WithUser(users, name, email, password))
    ensures forall k :: 0 <= k < |users| + 1 && WithUser(users, name, email, password)[k].email == email ==> k == |users|
  {
  }

  /** A freshly registered user logs in with exactly the password given at
      registration; any other password is refused. */
  lemma {:induction false} LoginAfterRegister(users: seq<User>, name: string, email: string, password: string, other: string)
    requires !HasEmail(users, email)
    requires other != password
    ensures Authenticate(WithUser(users, name, email, password), email, password) == Ok(|users| + 1)
    ensures Authenticate(WithUser(users, name, email, password), email, other) == Err(InvalidLogin)
  {
    var n := User(|users| + 1, name, email, password);
    AuthenticateAfterFreshEmail(users, n, password);
    AuthenticateAfterFreshEmail(users, n, other);
  }

  lemma {:induction false} AuthenticateAfterFreshEmail(users: seq<User>, n: User, password: string)
    requires !HasEmail(users, n.email)
    ensures Authenticate(users + [n], n.email, password)
         == if n.password == password then Ok(n.id) else Err(InvalidLogin)
  {
    if users != [] {
      assert (users + [n])[1..] == users[1..] + [n];
      assert users[0].email != n.email;
      assert !HasEmail(users[1..], n.email) by {
        forall k | 0 <= k < |users[1..]| ensures users[1..][k].email != n.email {
          assert users[1..][k] == users[k + 1];
        }
      }
      AuthenticateAfterFreshEmail(users[1..], n, password);
    }
  }
}
