/** The user handlers of backend/app.py: `register`, `login` and
    `get_user_data`. Password hashing is a foreign call: `Register` receives
    the hash bcrypt produced, `Login` receives bcrypt's check as `verify`. */
module Users {
  import opened Wrappers
  import opened Ordering
  import opened Schema
  import opened Api

  /** The JSON body of `POST /api/register` (`fullName`, `phoneNumber` in
      camelCase as the front end sends them). */
  datatype RegistrationForm = RegistrationForm(
    username: Option<string>,
    password: Option<string>,
    fullName: Option<string>,
    phoneNumber: Option<string>,
    email: Option<string>)

  /** The JSON body of `POST /api/login`. */
  datatype Credentials = Credentials(username: Option<string>, password: Option<string>)

  // ---- Classifying a unique violation by its error text ----

  /** Lower-casing, for ASCII letters. */
  function LowerChar(c: char): char {
    if 'A' <= c <= 'Z' then (c as int + 32) as char else c
  }

  function Lower(s: string): (r: string)
    ensures |r| == |s|
    ensures forall i | 0 <= i < |s| :: r[i] == LowerChar(s[i])
  {
    seq(|s|, i requires 0 <= i < |s| => LowerChar(s[i]))
  }

  /** Python's `w in s` on strings: `w` occurs in `s` as a substring. */
  predicate Contains(s: string, w: string)
    decreases |s|
  {
    |w| <= |s| && (s[..|w|] == w || Contains(s[1..], w))
  }

  lemma {:induction false} ContainsInfix(a: string, w: string, b: string)
    ensures Contains(a + w + b, w)
    decreases |a|
  {
    if a == [] {
      assert (a + w + b)[..|w|] == w;
    } else {
      assert (a + w + b)[1..] == a[1..] + w + b;
      ContainsInfix(a[1..], w, b);
    }
  }

  lemma LowerConcat(a: string, b: string)
    ensures Lower(a + b) == Lower(a) + Lower(b)
  {
  }

  /** The text of PostgreSQL's unique-violation error for a `users` column,
      with the default constraint name `users_<column>_key`. */
  function ViolationDetail(column: string, value: string): string {
    "duplicate key value violates unique constraint \"users_" + column + "_key\"\n"
      + "DETAIL:  Key (" + column + ")=(" + value + ") already exists.\n"
  }

  /** Which 409 message a unique violation gets: the lower-cased text is
      searched for "email" first, then for "username", else a generic one. */
  function ClassifyUniqueViolation(detail: string): (m: Msg)
    ensures m == EmailTaken <==> Contains(Lower(detail), "email")
    ensures m == UsernameTaken <==> !Contains(Lower(detail), "email") && Contains(Lower(detail), "username")
    ensures m == UniqueConflict <==> !Contains(Lower(detail), "email") && !Contains(Lower(detail), "username")
  {
    var d := Lower(detail);
    if Contains(d, "email") then EmailTaken
    else if Contains(d, "username") then UsernameTaken
    else UniqueConflict
  }

  /** Any text with "email" in it is classified as a taken email. */
  lemma ClassifiedAsEmail(pre: string, post: string)
    ensures ClassifyUniqueViolation(pre + "email" + post) == EmailTaken
  {
    LowerConcat(pre, "email" + post);
    LowerConcat("email", post);
    assert Lower("email") == "email";
    assert Lower(pre + "email" + post) == Lower(pre) + "email" + Lower(post) by {
      assert pre + "email" + post == pre + ("email" + post);
    }
    ContainsInfix(Lower(pre), "email", Lower(post));
  }

  /** A violation of the email constraint is always reported as a taken
      email, whatever the email is. */
  lemma EmailViolationClassified(email: string)
    ensures ClassifyUniqueViolation(ViolationDetail("email", email)) == EmailTaken
  {
    var pre := "duplicate key value violates unique constraint \"users_";
    var post := "_key\"\n" + "DETAIL:  Key (" + "email" + ")=(" + email + ") already exists.\n";
    assert ViolationDetail("email", email) == pre + "email" + post;
    ClassifiedAsEmail(pre, post);
  }

  /** The classification looks at the whole text, values included: a
      violation of the username constraint whose username contains "email"
      is reported as a taken email. */
  lemma UsernameWithEmailClassifiedAsEmail(a: string, b: string)
    ensures ClassifyUniqueViolation(ViolationDetail("username", a + "email" + b)) == EmailTaken
  {
    var head := "duplicate key value violates unique constraint \"users_" + "username" + "_key\"\n"
      + "DETAIL:  Key (" + "username" + ")=(";
    var tail := ") already exists.\n";
    assert ViolationDetail("username", a + "email" + b) == head + (a + "email" + b) + tail;
    assert head + (a + "email" + b) + tail == (head + a) + "email" + (b + tail);
    ClassifiedAsEmail(head + a, b + tail);
  }

  // ---- The database side of registration ----

  /** The outcome of `INSERT INTO users`. */
  datatype Insertion =
    | Inserted(store: Store, id: int)
    | Rejected(detail: string, store: Store)

  /** The INSERT takes the next id of the sequence, then enforces the UNIQUE
      constraints. A rejected INSERT leaves the table as it was, but the
      sequence value it took is not given back. */
  function InsertUser(s: Store, u: User): (r: Insertion)
    ensures r.Inserted? <==> !UsernameInUse(s.users, u.username) && !EmailInUse(s.users, u.email)
    ensures r.Rejected? && !UsernameInUse(s.users, u.username) ==> r.detail == ViolationDetail("email", u.email)
    ensures r.Rejected? ==> r.store.users == s.users
    ensures r.Inserted? ==> r.id == s.nextUserId && r.store.users == s.users[r.id := u]
    ensures r.store.products == s.products
    ensures r.store.nextProductId == s.nextProductId
    ensures r.store.nextUserId == s.nextUserId + 1
  {
    var id := s.nextUserId;
    var advanced := s.(nextUserId := id + 1);
    if UsernameInUse(s.users, u.username) then Rejected(ViolationDetail("username", u.username), advanced)
    else if EmailInUse(s.users, u.email) then Rejected(ViolationDetail("email", u.email), advanced)
    else Inserted(advanced.(users := s.users[id := u]), id)
  }

  /** Username, password and email all present (non-empty). */
  predicate Complete(form: RegistrationForm) {
    Truthy(form.username) && Truthy(form.password) && Truthy(form.email)
  }

  /** `POST /api/register`. The checks run in a fixed order: login and
      password (400), email (400), the connection (500), the username
      pre-check (409), then the INSERT, whose unique violation is a 409. */
  function Register(s: Store, form: RegistrationForm, passwordHash: string, connected: bool): (h: Handled)
    ensures h.reply == Fail(BAD_REQUEST, MissingCredentials) <==> !Truthy(form.username) || !Truthy(form.password)
    ensures h.reply == Fail(BAD_REQUEST, MissingEmail) <==>
      Truthy(form.username) && Truthy(form.password) && !Truthy(form.email)
    ensures h.reply.status == BAD_REQUEST <==> !Complete(form)
    ensures h.reply.status == SERVER_ERROR <==> Complete(form) && !connected
    ensures Complete(form) && connected && UsernameInUse(s.users, form.username.value) ==>
      h.reply == Fail(CONFLICT, UsernameTaken)
    ensures (Complete(form) && connected && !UsernameInUse(s.users, form.username.value)
             && EmailInUse(s.users, form.email.value)) ==>
      h.reply == Fail(CONFLICT, EmailTaken)
    ensures h.reply.status == CREATED <==>
      Complete(form) && connected
      && !UsernameInUse(s.users, form.username.value) && !EmailInUse(s.users, form.email.value)
    ensures h.reply.status in {CREATED, BAD_REQUEST, CONFLICT, SERVER_ERROR}
    ensures h.reply.status != CREATED ==> h.store.users == s.users && h.store.products == s.products
    ensures h.store.nextProductId == s.nextProductId
    ensures h.reply.status == CREATED ==>
      var id := s.nextUserId;
      && h.store.users.Keys == s.users.Keys + {id}
      && h.store.users[id] == User(form.username.value, passwordHash, DefaultRole,
                                   form.fullName, form.phoneNumber, form.email.value)
      && (forall k | k in s.users && k != id :: h.store.users[k] == s.users[k])
      && h.store.products == s.products
  {
    if !Truthy(form.username) || !Truthy(form.password) then
      Handled(Fail(BAD_REQUEST, MissingCredentials), s)
    else if !Truthy(form.email) then
      Handled(Fail(BAD_REQUEST, MissingEmail), s)
    else if !connected then
      Handled(Fail(SERVER_ERROR, DbUnavailable), s)
    else if UsernameInUse(s.users, form.username.value) then
      Handled(Fail(CONFLICT, UsernameTaken), s)
    else
      var u := User(form.username.value, passwordHash, DefaultRole,
                    form.fullName, form.phoneNumber, form.email.value);
      match InsertUser(s, u)
      case Inserted(after, _) =>
        Handled(Reply(CREATED, Message(Registered)), after)
      case Rejected(detail, after) =>
        EmailViolationClassified(u.email);
        Handled(Fail(CONFLICT, ClassifyUniqueViolation(detail)), after)
  }

  lemma RegisterPreservesValid(s: Store, form: RegistrationForm, passwordHash: string, connected: bool)
    requires Valid(s)
    ensures Valid(Register(s, form, passwordHash, connected).store)
  {
  }

  // ---- Login ----

  /** The first of `ids` whose user has the given username. */
  function FirstWithName(ids: seq<int>, users: map<int, User>, username: string): (r: Option<int>)
    requires forall i | 0 <= i < |ids| :: ids[i] in users
    ensures r.Some? ==> r.value in users && users[r.value].username == username
    ensures r.None? <==> forall i | 0 <= i < |ids| :: users[ids[i]].username != username
  {
    if ids == [] then None
    else if users[ids[0]].username == username then Some(ids[0])
    else FirstWithName(ids[1..], users, username)
  }

  /** `SELECT ... FROM users WHERE username = %s`, `fetchone()`. */
  function FindUser(users: map<int, User>, username: string): (r: Option<int>)
    ensures r.Some? ==> r.value in users && users[r.value].username == username
    ensures r.None? <==> !UsernameInUse(users, username)
  {
    var ids := SortedElements(users.Keys);
    assert forall i | 0 <= i < |ids| :: ids[i] in users by {
      forall i | 0 <= i < |ids| ensures ids[i] in users { assert ids[i] in ids; }
    }
    FirstWithName(ids, users, username)
  }

  /** `POST /api/login`. An unknown username and a wrong password give the
      same 401 reply. */
  function Login(s: Store, cred: Credentials, connected: bool, verify: (string, string) -> bool): (r: Reply)
    ensures r.status == BAD_REQUEST <==> !Truthy(cred.username) || !Truthy(cred.password)
    ensures r.status == BAD_REQUEST ==> r == Fail(BAD_REQUEST, MissingCredentials)
    ensures r.status == SERVER_ERROR <==> Truthy(cred.username) && Truthy(cred.password) && !connected
    ensures r.status == UNAUTHORIZED ==> r == Fail(UNAUTHORIZED, BadCredentials)
    ensures (Truthy(cred.username) && Truthy(cred.password) && connected
             && !UsernameInUse(s.users, cred.username.value)) ==> r == Fail(UNAUTHORIZED, BadCredentials)
    ensures r.status == OK ==>
      && Truthy(cred.username) && Truthy(cred.password)
      && r.body.LoggedIn?
      && r.body.userId in s.users
      && s.users[r.body.userId].username == cred.username.value
      && verify(cred.password.value, s.users[r.body.userId].passwordHash)
      && r.body.role == s.users[r.body.userId].role
    ensures r.status in {OK, BAD_REQUEST, UNAUTHORIZED, SERVER_ERROR}
  {
    if !Truthy(cred.username) || !Truthy(cred.password) then Fail(BAD_REQUEST, MissingCredentials)
    else if !connected then Fail(SERVER_ERROR, DbUnavailable)
    else
      match FindUser(s.users, cred.username.value)
      case None => Fail(UNAUTHORIZED, BadCredentials)
      case Some(id) =>
        if verify(cred.password.value, s.users[id].passwordHash) then
          Reply(OK, LoggedIn(id, s.users[id].role))
        else Fail(UNAUTHORIZED, BadCredentials)
  }

  /** On a valid database, login succeeds exactly when a user has this
      username and the password checks against that user's hash. */
  lemma LoginSucceedsIff(s: Store, cred: Credentials, verify: (string, string) -> bool)
    requires Valid(s)
    requires Truthy(cred.username) && Truthy(cred.password)
    ensures Login(s, cred, true, verify).status == OK <==>
      exists id | id in s.users :: s.users[id].username == cred.username.value
                                && verify(cred.password.value, s.users[id].passwordHash)
  {
  }

  /** The reply does not reveal whether the username exists: an unknown
      username and a known one with a wrong password answer alike. */
  lemma UnknownUserLooksLikeWrongPassword(s: Store, unknown: Credentials, wrong: Credentials,
                                          verify: (string, string) -> bool)
    requires Valid(s)
    requires Truthy(unknown.username) && Truthy(unknown.password)
    requires !UsernameInUse(s.users, unknown.username.value)
    requires Truthy(wrong.username) && Truthy(wrong.password)
    requires forall id | id in s.users && s.users[id].username == wrong.username.value ::
               !verify(wrong.password.value, s.users[id].passwordHash)
    ensures Login(s, unknown, true, verify) == Login(s, wrong, true, verify)
  {
  }

  // ---- Profile ----

  /** The public fields of a user. */
  function ProfileOf(u: User): Profile {
    Profile(u.username, u.fullName, u.phoneNumber, u.email)
  }

  /** `GET /api/user/<id>`: username, full name, phone number and email. */
  function GetUserData(s: Store, id: int, connected: bool): (r: Reply)
    ensures r.status == SERVER_ERROR <==> !connected
    ensures r.status == NOT_FOUND <==> connected && id !in s.users
    ensures r.status == OK <==> connected && id in s.users
    ensures r.status == OK ==>
      && r.body.UserData?
      && r.body.profile.username == s.users[id].username
      && r.body.profile.fullName == s.users[id].fullName
      && r.body.profile.phoneNumber == s.users[id].phoneNumber
      && r.body.profile.email == s.users[id].email
  {
    if !connected then Fail(SERVER_ERROR, DbUnavailable)
    else if id !in s.users then Fail(NOT_FOUND, UserNotFound)
    else Reply(OK, UserData(ProfileOf(s.users[id])))
  }

  /** The profile reply does not depend on the password hash or the role:
      changing either leaves the reply as it was. */
  lemma ProfileHidesSecrets(s: Store, id: int, hash: string, role: string, connected: bool)
    requires id in s.users
    ensures
      var changed := s.(users := s.users[id := s.users[id].(passwordHash := hash, role := role)]);
      GetUserData(changed, id, connected) == GetUserData(s, id, connected)
  {
  }

  // ---- Scenarios relating several requests ----

  /** After a registration, the new user's profile is exactly what the form
      gave. */
  lemma RegisterThenProfile(s: Store, form: RegistrationForm, hash: string)
    requires Complete(form)
    requires !UsernameInUse(s.users, form.username.value) && !EmailInUse(s.users, form.email.value)
    ensures
      var r := GetUserData(Register(s, form, hash, true).store, s.nextUserId, true);
      r == Reply(OK, UserData(Profile(form.username.value, form.fullName, form.phoneNumber, form.email.value)))
  {
  }

  /** Registering the same username twice: the second attempt is a 409. */
  lemma RegisterTwice(s: Store, form: RegistrationForm, hash1: string, hash2: string)
    requires Complete(form)
    requires !UsernameInUse(s.users, form.username.value) && !EmailInUse(s.users, form.email.value)
    ensures Register(s, form, hash1, true).reply.status == CREATED
    ensures Register(Register(s, form, hash1, true).store, form, hash2, true).reply
            == Fail(CONFLICT, UsernameTaken)
  {
  }

  /** A new username with an email already in use is rejected by the
      database's constraint and reported as a taken email. */
  lemma RegisterDuplicateEmail(s: Store, form: RegistrationForm, other: RegistrationForm, hash1: string, hash2: string)
    requires Complete(form) && Complete(other)
    requires !UsernameInUse(s.users, form.username.value) && !EmailInUse(s.users, form.email.value)
    requires other.email == form.email && other.username != form.username
    requires !UsernameInUse(s.users, other.username.value)
    ensures
      var s1 := Register(s, form, hash1, true).store;
      var h := Register(s1, other, hash2, true);
      h.reply == Fail(CONFLICT, EmailTaken) && h.store.users == s1.users
  {
  }

  /** Register, register again, log in with a wrong and with the right
      password: 201, 409, 401, then 200 with the role "user". */
  lemma RegisterLoginScenario(s: Store, form: RegistrationForm, hash: string, hash2: string,
                              wrong: string, verify: (string, string) -> bool)
    requires Valid(s)
    requires Complete(form)
    requires !UsernameInUse(s.users, form.username.value) && !EmailInUse(s.users, form.email.value)
    requires verify(form.password.value, hash) && wrong != "" && !verify(wrong, hash)
    ensures
      var h1 := Register(s, form, hash, true);
      var h2 := Register(h1.store, form, hash2, true);
      var bad := Login(h2.store, Credentials(form.username, Some(wrong)), true, verify);
      var good := Login(h2.store, Credentials(form.username, form.password), true, verify);
      && h1.reply.status == CREATED
      && h2.reply.status == CONFLICT
      && bad.status == UNAUTHORIZED
      && good.status == OK && good.body.role == DefaultRole
  {
    var h1 := Register(s, form, hash, true);
    RegisterTwice(s, form, hash, hash2);
    RegisterPreservesValid(s, form, hash, true);
    var s2 := Register(h1.store, form, hash2, true).store;
    var id := s.nextUserId;
    assert s2.users == h1.store.users;
    assert Valid(s2);
    assert s2.users[id].username == form.username.value;
    var found := FindUser(s2.users, form.username.value);
    assert found == Some(id);
  }
}
