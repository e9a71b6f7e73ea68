/** The auth controller: registration, login and profile lookup over an
    in-memory users table. bcrypt and JWT signing are foreign libraries; the
    model keeps them opaque. */
module AuthController {
  import opened Wrappers
  import opened Http

  /** `bcrypt.hash(password, 10)`. A hash is modelled as a free term of the
      cost, the random salt and the password: nothing but `Compare` looks
      inside it, and a stored hash is never a plaintext string. */
  const SaltRounds: nat := 10

  datatype PasswordHash = Bcrypt(rounds: nat, salt: nat, secret: string)

  function Hash(password: string, salt: nat): (h: PasswordHash)
    ensures h.rounds == SaltRounds && h.salt == salt
  {
    Bcrypt(SaltRounds, salt, password)
  }

  /** `bcrypt.compare(password, hash)`: for a hash made at the controller's
      cost, true exactly when hashing this password with the hash's own salt
      gives the hash back. */
  function Compare(password: string, hash: PasswordHash): (ok: bool)
    ensures hash.rounds == SaltRounds ==> (ok <==> hash == Hash(password, hash.salt))
  {
    password == hash.secret
  }

  /** The one property of bcrypt the controller relies on. */
  lemma CompareHash(p: string, q: string, salt: nat)
    ensures Compare(p, Hash(q, salt)) <==> p == q
  {
  }

  /** A row of the `users` table. */
  datatype User = User(id: nat, name: string, email: string, password: PasswordHash, createdAt: int)

  /** `jwt.sign({ userId, email }, secret, { expiresIn: '7d' })`: the claims a
      token carries; the secret and the signature are not modelled. */
  const TokenLifetime: string := "7d"

  datatype Token = Jwt(userId: nat, email: string, expiresIn: string)

  /** The public parts of a user: no password hash can appear in them. */
  datatype UserSummary = UserSummary(id: nat, name: string, email: string)
  datatype Session = Session(token: Token, user: UserSummary)
  datatype Profile = Profile(id: nat, name: string, email: string, createdAt: int)

  ghost predicate UniqueEmails(users: seq<User>)
  {
    forall i, j :: 0 <= i < j < |users| ==> users[i].email != users[j].email
  }

  ghost predicate UniqueUserIds(users: seq<User>)
  {
    forall i, j :: 0 <= i < j < |users| ==> users[i].id != users[j].id
  }

  /** The column a users query looks up: `WHERE email = ?` or `WHERE id = ?`. */
  datatype UserKey = ByEmail(email: string) | ById(id: nat)

  predicate HasKey(u: User, k: UserKey)
  {
    match k
    case ByEmail(e) => u.email == e
    case ById(i) => u.id == i
  }

  /** The first row of `SELECT ... FROM users WHERE <key>`. */
  function FindUser(users: seq<User>, k: UserKey): (r: Option<User>)
    ensures r.Some? ==> r.value in users && HasKey(r.value, k)
    ensures r.None? ==> forall u :: u in users ==> !HasKey(u, k)
  {
    if users == [] then None
    else if HasKey(users[0], k) then Some(users[0])
    else
      assert users == [users[0]] + users[1..];
      FindUser(users[1..], k)
  }

  /** POST /auth/login. A missing field is a 400; an unknown email and a wrong
      password are the same 401; a success carries a token for the user's id
      and email and the user's public summary. */
  function Login(users: seq<User>, email: string, password: string): (r: Reply<Session>)
    ensures (email == "" || password == "") ==> r == Fail(BadRequest400, "Email and password required")
    ensures r.Fail? && email != "" && password != "" ==> r == Fail(Unauthorized401, "Invalid credentials")
    ensures r.Ok? ==>
              && r.code == Ok200
              && exists u :: u in users && u.email == email && Compare(password, u.password)
                             && r.data == Session(Jwt(u.id, u.email, TokenLifetime), UserSummary(u.id, u.name, u.email))
  {
    if email == "" || password == "" then
      Fail(BadRequest400, "Email and password required")
    else
      match FindUser(users, ByEmail(email))
      case None => Fail(Unauthorized401, "Invalid credentials")
      case Some(user) =>
        if !Compare(password, user.password) then Fail(Unauthorized401, "Invalid credentials")
        else Ok(Ok200, Session(Jwt(user.id, user.email, TokenLifetime), UserSummary(user.id, user.name, user.email)))
  }

  /** GET /auth/profile for the id taken from the token. */
  function GetProfile(users: seq<User>, userId: nat): (r: Reply<Profile>)
    ensures r.Ok? <==> exists u :: u in users && u.id == userId
    ensures r.Ok? ==>
              && r.code == Ok200
              && exists u :: u in users && u.id == userId && r.data == Profile(u.id, u.name, u.email, u.createdAt)
    ensures r.Fail? ==> r == Fail(NotFound404, "User not found")
  {
    match FindUser(users, ById(userId))
    case None => Fail(NotFound404, "User not found")
    case Some(u) => Ok(Ok200, Profile(u.id, u.name, u.email, u.createdAt))
  }

  /** With unique emails, login succeeds exactly for a present email and the
      password that was hashed for it. */
  lemma LoginSucceedsIffCredentialsMatch(users: seq<User>, email: string, password: string)
    requires UniqueEmails(users)
    ensures Login(users, email, password).Ok? <==>
              email != "" && password != "" &&
              exists u :: u in users && u.email == email && Compare(password, u.password)
  {
  }

  /** An unknown email and a wrong password give the identical reply, so a
      caller cannot tell which emails are registered. */
  lemma InvalidCredentialsLookAlike(unknown: seq<User>, known: seq<User>, email: string, password: string)
    requires email != "" && password != ""
    requires forall u :: u in unknown ==> u.email != email
    requires UniqueEmails(known)
    requires exists u :: u in known && u.email == email && !Compare(password, u.password)
    ensures Login(unknown, email, password) == Login(known, email, password)
    ensures Login(known, email, password) == Fail(Unauthorized401, "Invalid credentials")
  {
  }

  /** A user appended under a fresh email logs in with the password whose
      hash was stored, and the token names that user. */
  lemma RegisteredUserCanLogIn(users: seq<User>, user: User, password: string)
    requires forall u :: u in users ==> u.email != user.email
    requires user.email != "" && password != "" && Compare(password, user.password)
    ensures Login(users + [user], user.email, password)
         == Ok(Ok200, Session(Jwt(user.id, user.email, TokenLifetime), UserSummary(user.id, user.name, user.email)))
  {
    var all := users + [user];
    assert user in all && HasKey(user, ByEmail(user.email));
    var found := FindUser(all, ByEmail(user.email));
    assert found.Some?;
    assert HasKey(found.value, ByEmail(user.email));
    assert found.value !in users;
  }

  /** The token a login issues leads the profile lookup back to the same
      user. */
  lemma LoginThenProfile(users: seq<User>, email: string, password: string)
    requires UniqueUserIds(users)
    requires Login(users, email, password).Ok?
    ensures var s := Login(users, email, password).data;
            exists u :: && u in users && u.email == email
                        && s.token.userId == u.id && s.user == UserSummary(u.id, u.name, u.email)
                        && GetProfile(users, s.token.userId) == Ok(Ok200, Profile(u.id, u.name, u.email, u.createdAt))
  {
  }

  /** The users table. Ids come from an AUTO_INCREMENT counter. */
  class UserStore {
    var users: seq<User>
    var nextId: nat

    /** Emails are pairwise distinct and ids are unique and below the counter. */
    ghost predicate Valid()
      reads this
    {
      && UniqueEmails(users)
      && UniqueUserIds(users)
      && forall u :: u in users ==> u.id < nextId
    }

    constructor ()
      ensures Valid() && users == [] && nextId == 1
    {
      users := [];
      nextId := 1;
    }

    /** POST /auth/register. `salt` stands for the random salt bcrypt draws
        and `now` for the row's creation time. */
    method Register(name: string, email: string, password: string, salt: nat, now: int)
      returns (r: Reply<string>)
      requires Valid()
      modifies this
      ensures Valid()
      ensures (name == "" || email == "" || password == "") ==>
                && r == Fail(BadRequest400, "All fields are required")
                && users == old(users) && nextId == old(nextId)
      ensures name != "" && email != "" && password != "" && (exists u :: u in old(users) && u.email == email) ==>
                && r == Fail(BadRequest400, "Email already registered")
                && users == old(users) && nextId == old(nextId)
      ensures name != "" && email != "" && password != "" && (forall u :: u in old(users) ==> u.email != email) ==>
                && r == Ok(Created201, "User registered successfully")
                && users == old(users) + [User(old(nextId), name, email, Hash(password, salt), now)]
                && nextId == old(nextId) + 1
                && Login(users, email, password)
                   == Ok(Ok200, Session(Jwt(old(nextId), email, TokenLifetime), UserSummary(old(nextId), name, email)))
    {
      if name == "" || email == "" || password == "" {
        return Fail(BadRequest400, "All fields are required");
      }
      var existing := FindUser(users, ByEmail(email));
      if existing.Some? {
        return Fail(BadRequest400, "Email already registered");
      }
      var user := User(nextId, name, email, Hash(password, salt), now);
      RegisteredUserCanLogIn(users, user, password);
      forall i | 0 <= i < |users| ensures users[i].email != email && users[i].id != nextId {
        assert users[i] in users;
      }
      users := users + [user];
      nextId := nextId + 1;
      r := Ok(Created201, "User registered successfully");
    }
  }
}
