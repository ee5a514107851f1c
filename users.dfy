/**
 * The user-registration and user-listing handlers of the users controller.
 *
 * The `users` table is a sequence of rows held by the controller object;
 * a request body is a record of three optional strings; the password
 * digest is an uninterpreted function supplied when the controller is built.
 */
module Users {
  import opened Common

  /** A row of the `users` table as written by `create`. */
  datatype User = User(name: string, email: string, password: string)

  /** A row of the listing: the two columns `index` selects. */
  datatype UserSummary = UserSummary(name: string, email: string)

  /** The fields `create` destructures from the request body. */
  datatype Body = Body(name: Option<string>, email: Option<string>, password: Option<string>)

  /** An application error; it carries the message shown to the client. */
  datatype AppError = AppError(message: string)

  const NameRequired := AppError("The name is required!")
  const EmailRequired := AppError("The email is required!")
  const PasswordRequired := AppError("The password is required!")
  const EmailAlreadyRegistered := AppError("This email has already registered!")

  /** The cost factor passed to the password hash. */
  const SaltRounds: nat := 8

  /** The random salt the hash draws on every call. */
  type Salt = string

  /** A body field fails the `!field` test: absent, or the empty string. */
  predicate Missing(field: Option<string>)
    ensures !Missing(field) ==> field.Some? && |field.value| > 0
  {
    field == None || field == Some("")
  }

  /** All three required fields are present and non-empty. */
  predicate Complete(body: Body)
  {
    !Missing(body.name) && !Missing(body.email) && !Missing(body.password)
  }

  /** Some row of the table already holds this email. */
  ghost predicate EmailRegistered(users: seq<User>, email: string)
  {
    exists i :: 0 <= i < |users| && users[i].email == email
  }

  /** No two rows of the table hold the same email. */
  ghost predicate EmailsUnique(users: seq<User>)
  {
    forall i, j :: 0 <= i < j < |users| ==> users[i].email != users[j].email
  }

  /** The rows selected by the query `where({email})`. */
  function WithEmail(users: seq<User>, email: string): (r: seq<User>)
    ensures forall k :: 0 <= k < |r| ==> r[k].email == email && r[k] in users
    ensures forall u :: u in users && u.email == email ==> u in r
    ensures forall u :: multiset(r)[u] == if u.email == email then multiset(users)[u] else 0
    ensures |r| == 0 <==> !EmailRegistered(users, email)
    decreases |users|
  {
    if users == [] then []
    else
      var rest := WithEmail(users[1..], email);
      SplitHead(users, email);
      if users[0].email == email then [users[0]] + rest else rest
  }

  /** A non-empty table is its first row followed by the rest, for membership, counts and emails. */
  lemma SplitHead(users: seq<User>, email: string)
    requires users != []
    ensures forall u :: u in users <==> u == users[0] || u in users[1..]
    ensures multiset(users) == multiset{users[0]} + multiset(users[1..])
    ensures EmailRegistered(users, email) <==> users[0].email == email || EmailRegistered(users[1..], email)
  {
    assert users == [users[0]] + users[1..];
    if EmailRegistered(users, email) && users[0].email != email {
      var i :| 0 <= i < |users| && users[i].email == email;
      assert users[1..][i - 1].email == email;
    }
    if EmailRegistered(users[1..], email) {
      var i :| 0 <= i < |users[1..]| && users[1..][i].email == email;
      assert users[i + 1].email == email;
    }
  }

  /**
   * What a registration does to the table: the first check that fails, in
   * the order `create` runs them, as an error, or else the table with one
   * new row appended.
   */
  function Register(users: seq<User>, body: Body, salt: Salt, hash: (string, nat, Salt) -> string):
    (r: Result<seq<User>, AppError>)
    ensures Missing(body.name) ==> r == Failure(NameRequired)
    ensures !Missing(body.name) && Missing(body.email) ==> r == Failure(EmailRequired)
    ensures !Missing(body.name) && !Missing(body.email) && Missing(body.password) ==>
              r == Failure(PasswordRequired)
    ensures Complete(body) && EmailRegistered(users, body.email.value) ==>
              r == Failure(EmailAlreadyRegistered)
    ensures r.Success? <==> Complete(body) && !EmailRegistered(users, body.email.value)
    ensures r.Success? ==>
              r.value == users + [User(body.name.value, body.email.value,
                                       hash(body.password.value, SaltRounds, salt))]
    ensures r.Success? && EmailsUnique(users) ==> EmailsUnique(r.value)
  {
    if Missing(body.name) then Failure(NameRequired)
    else if Missing(body.email) then Failure(EmailRequired)
    else if Missing(body.password) then Failure(PasswordRequired)
    else if |WithEmail(users, body.email.value)| > 0 then Failure(EmailAlreadyRegistered)
    else
      var row := User(body.name.value, body.email.value, hash(body.password.value, SaltRounds, salt));
      var t := users + [row];
      Success(t)
  }

  /** The listing `index` returns: name and email of every row, in table order. */
  function Listing(users: seq<User>): (r: seq<UserSummary>)
    ensures |r| == |users|
    ensures forall i :: 0 <= i < |users| ==> r[i].name == users[i].name && r[i].email == users[i].email
  {
    seq(|users|, i requires 0 <= i < |users| => UserSummary(users[i].name, users[i].email))
  }

  /** The listing does not depend on the stored password digests. */
  lemma ListingIgnoresPasswords(a: seq<User>, b: seq<User>)
    requires |a| == |b|
    requires forall i :: 0 <= i < |a| ==> a[i].name == b[i].name && a[i].email == b[i].email
    ensures Listing(a) == Listing(b)
  {
  }

  /** A successful registration adds exactly the new name and email to the listing. */
  lemma ListingAfterRegister(users: seq<User>, body: Body, salt: Salt, hash: (string, nat, Salt) -> string)
    requires Register(users, body, salt, hash).Success?
    ensures Listing(Register(users, body, salt, hash).value)
            == Listing(users) + [UserSummary(body.name.value, body.email.value)]
  {
  }

  /** Registering the same email a second time fails, whatever the other fields. */
  lemma RegisterTwiceFails(users: seq<User>, body: Body, again: Body, salt: Salt, salt': Salt,
                           hash: (string, nat, Salt) -> string)
    requires Register(users, body, salt, hash).Success?
    requires Complete(again) && again.email == body.email
    ensures Register(Register(users, body, salt, hash).value, again, salt', hash)
            == Failure(EmailAlreadyRegistered)
  {
  }

  /** The users controller: the table it reads and writes, and the hash it uses. */
  class UsersController {
    var users: seq<User>
    const hash: (string, nat, Salt) -> string

    constructor (users: seq<User>, hash: (string, nat, Salt) -> string)
      ensures this.users == users && this.hash == hash
    {
      this.users := users;
      this.hash := hash;
    }

    /** `GET /users`: every user's name and email; the table is only read. */
    method Index() returns (r: seq<UserSummary>)
      ensures r == Listing(users)
    {
      r := Listing(users);
    }

    /**
     * `POST /users`: the field checks in order, then the email lookup, then
     * one insert of the new row with the digest of the password.
     */
    method Create(body: Body, salt: Salt) returns (result: Outcome<AppError>)
      modifies this`users
      ensures match Register(old(users), body, salt, hash)
              case Success(t) => result == Pass && users == t
              case Failure(e) => result == Fail(e) && users == old(users)
      ensures result.Fail? ==> users == old(users)
      ensures result.Pass? ==> |users| == |old(users)| + 1 && users[..|old(users)|] == old(users)
      ensures EmailsUnique(old(users)) ==> EmailsUnique(users)
    {
      if Missing(body.name) {
        return Fail(NameRequired);
      }
      if Missing(body.email) {
        return Fail(EmailRequired);
      }
      if Missing(body.password) {
        return Fail(PasswordRequired);
      }
      var userExist := WithEmail(users, body.email.value);
      if |userExist| > 0 {
        return Fail(EmailAlreadyRegistered);
      }
      var hashedPassword := hash(body.password.value, SaltRounds, salt);
      users := users + [User(body.name.value, body.email.value, hashedPassword)];
      result := Pass;
    }
  }
}
