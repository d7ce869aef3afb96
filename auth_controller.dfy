/**
 * Registration and login (server/src/controllers/authController.js): the email
 * format test, the canonical form of an email, the ordered checks of `register`
 * over the users collection, and `login`'s answer. bcrypt and JSON Web Tokens are
 * given as functions.
 */
module AuthController {
  import opened Wrappers
  import opened Js
  import opened Models

  /** What a successful answer shows of a user: never the password hash. */
  datatype UserSummary = UserSummary(id: ObjectId, email: string, createdAt: int)

  /** The JSON answer of `register` (201) and `login` (200). `ServerError` is a 500
      whose text comes from a library. */
  datatype Reply =
    | Success(status: int, token: string, user: UserSummary)
    | Failure(status: int, error: string)
    | ServerError

  const RequiredMessage := "Email and password are required"
  const InvalidEmailMessage := "Invalid email format"
  const ShortPasswordMessage := "Password must be at least 6 characters"
  const TakenMessage := "Email already registered"
  const BadCredentialsMessage := "Invalid email or password"
  const MinPasswordLength := 6

  /** `bcrypt.compare(password, hash)`. */
  type Comparer = (string, string) -> bool
  /** `createToken(userId)`: `jwt.sign` with the server's secret and lifetime. */
  type Signer = ObjectId -> string

  function Summary(u: User): (s: UserSummary)
    ensures s.id == u.id && s.email == u.email && s.createdAt == u.createdAt
  {
    UserSummary(u.id, u.email, u.createdAt)
  }

  /** Two users have the same summary exactly when they agree on id, email and
      creation date: the password hash and the verification flag never reach an
      answer. */
  lemma SummaryHidesHash(u: User, v: User)
    ensures Summary(u) == Summary(v) <==> u.id == v.id && u.email == v.email && u.createdAt == v.createdAt
    ensures Summary(u.(passwordHash := v.passwordHash, emailVerified := v.emailVerified)) == Summary(u)
  {
  }

  // ---------------------------------------------------------------------------
  // isValidEmail

  /** A character of `[^\s@]`. */
  predicate Plain(c: char) {
    !IsSpace(c) && c != '@'
  }

  predicate AllPlain(s: string) {
    forall k :: 0 <= k < |s| ==> Plain(s[k])
  }

  /** The strings `/^[^\s@]+@[^\s@]+\.[^\s@]+$/` matches: one `@` with something
      before it, a `.` in what follows that is neither its first nor its last
      character, and no other `@` and no white space anywhere. */
  ghost predicate EmailShape(s: string) {
    exists i, j :: && 0 < i && i + 1 < j < |s| - 1 && s[i] == '@' && s[j] == '.'
                   && forall k :: 0 <= k < |s| && k != i ==> Plain(s[k])
  }

  /** The first position of `c` in `s`. */
  function IndexOf(s: string, c: char): (r: Option<nat>)
    ensures r.Some? ==> r.value < |s| && s[r.value] == c && forall k :: 0 <= k < r.value ==> s[k] != c
    ensures r.None? ==> forall k :: 0 <= k < |s| ==> s[k] != c
  {
    if s == [] then None
    else if s[0] == c then Some(0)
    else match IndexOf(s[1..], c)
      case None => None
      case Some(k) => Some(k + 1)
  }

  /** The test `isValidEmail` runs on a string: the first `@` has something before
      it, no white space and no second `@` follow or precede it, and a `.` occurs
      after the character following the `@` and before the last character. */
  predicate EmailPattern(s: string) {
    match IndexOf(s, '@')
    case None => false
    case Some(i) => 0 < i && i + 3 <= |s| && AllPlain(s[..i]) && AllPlain(s[i + 1..]) && '.' in s[i + 2..|s| - 1]
  }

  /** The test accepts exactly the strings of the regular expression's language. */
  lemma EmailFormat(s: string)
    ensures EmailPattern(s) <==> EmailShape(s)
  {
    if EmailPattern(s) {
      ValidEmailHasShape(s);
    }
    if EmailShape(s) {
      ShapedEmailIsValid(s);
    }
  }

  lemma ValidEmailHasShape(s: string)
    requires EmailPattern(s)
    ensures EmailShape(s)
  {
    var i := IndexOf(s, '@').value;
    var d := s[i + 2..|s| - 1];
    var j' :| 0 <= j' < |d| && d[j'] == '.';
    var j := i + 2 + j';
    assert s[j] == '.';
    assert forall k :: 0 <= k < i ==> s[..i][k] == s[k];
    assert forall k :: i < k < |s| ==> s[i + 1..][k - i - 1] == s[k];
    assert forall k :: 0 <= k < |s| && k != i ==> Plain(s[k]);
  }

  lemma ShapedEmailIsValid(s: string)
    requires EmailShape(s)
    ensures EmailPattern(s)
  {
    var i, j :| && 0 < i && i + 1 < j < |s| - 1 && s[i] == '@' && s[j] == '.'
                && forall k :: 0 <= k < |s| && k != i ==> Plain(s[k]);
    var r := IndexOf(s, '@');
    assert r == Some(i);
    assert s[i + 2..|s| - 1][j - i - 2] == '.';
    assert AllPlain(s[..i]);
    assert AllPlain(s[i + 1..]);
  }

  /** `isValidEmail`: false for anything but a string, else the regular expression. */
  function IsValidEmail(email: Value): (ok: bool)
    ensures ok <==> email.Str? && EmailShape(email.s)
  {
    email.Str? && (EmailFormat(email.s); EmailPattern(email.s))
  }

  /** The canonical form `String(email).toLowerCase().trim()` under which users are
      stored and looked up. */
  function CanonicalEmail(email: Value): (e: string)
    ensures Trimmed(e)
  {
    Trim(ToLower(ToText(email)))
  }

  /** A well-formed email has no white space, so trimming leaves it alone: the
      stored address is the input in lower case. */
  lemma ValidEmailStoredLowercase(email: Value)
    requires IsValidEmail(email)
    ensures CanonicalEmail(email) == ToLower(email.s)
  {
    var s := email.s;
    var i, j :| && 0 < i && i + 1 < j < |s| - 1 && s[i] == '@' && s[j] == '.'
                && forall k :: 0 <= k < |s| && k != i ==> Plain(s[k]);
    assert NoSpace(s) by {
      forall k | 0 <= k < |s| ensures !IsSpace(s[k]) {
        if k != i {
          assert Plain(s[k]);
        }
      }
    }
    LowerKeepsSpaces(s);
  }

  /** Letter case does not matter to the canonical form: an address typed in
      capitals finds the account registered in lower case. */
  lemma CanonicalIgnoresCase(s: string)
    ensures CanonicalEmail(Str(ToUpper(s))) == CanonicalEmail(Str(s))
  {
    LowerOfUpper(s);
  }

  // ---------------------------------------------------------------------------
  // register

  /** The checks of `register` before it writes, in the handler's order; on success
      the canonical email. */
  function CheckRegistration(users: seq<User>, email: Value, password: Value): (r: Result<string, Reply>)
    ensures r == Err(Failure(400, RequiredMessage)) <==> !Truthy(email) || !Truthy(password)
    ensures r == Err(Failure(400, InvalidEmailMessage)) <==>
              Truthy(email) && Truthy(password) && !IsValidEmail(email)
    ensures r == Err(Failure(400, ShortPasswordMessage)) <==>
              Truthy(email) && Truthy(password) && IsValidEmail(email)
              && (!password.Str? || Utf16Length(password.s) < MinPasswordLength)
    ensures r == Err(Failure(409, TakenMessage)) <==>
              IsValidEmail(email) && password.Str? && Utf16Length(password.s) >= MinPasswordLength
              && FindUserByEmail(users, CanonicalEmail(email)).Some?
    ensures r.Ok? ==> && IsValidEmail(email) && password.Str? && Utf16Length(password.s) >= MinPasswordLength
                      && r.value == ToLower(email.s)
                      && forall u :: u in users ==> u.email != r.value
  {
    if !Truthy(email) || !Truthy(password) then Err(Failure(400, RequiredMessage))
    else if !IsValidEmail(email) then Err(Failure(400, InvalidEmailMessage))
    else if !password.Str? || Utf16Length(password.s) < MinPasswordLength then Err(Failure(400, ShortPasswordMessage))
    else if FindUserByEmail(users, CanonicalEmail(email)).Some? then Err(Failure(409, TakenMessage))
    else
      ValidEmailStoredLowercase(email);
      Ok(CanonicalEmail(email))
  }

  /** `register`. `hash` is `bcrypt.hash(password, 10)` for this call; `interloper`
      is a user that a concurrent registration creates between this request's
      lookup and its own create, None when there is no race. */
  method Register(users: UserCollection, email: Value, password: Value, hash: string -> string, sign: Signer,
                  newId: ObjectId, now: int, interloper: Option<User>)
    returns (reply: Reply)
    requires users.Valid()
    modifies users
    ensures users.Valid()
    ensures var check := CheckRegistration(old(users.docs), email, password);
            var mid := if interloper.Some? then AfterUserCreate(old(users.docs), interloper.value) else old(users.docs);
            && (check.Err? ==> reply == check.error && users.docs == old(users.docs))
            && (check.Ok? ==>
                  var u := User(newId, check.value, hash(password.s), false, now);
                  && users.docs == AfterUserCreate(mid, u)
                  && reply == if UserInsertable(mid, u) then Success(201, sign(newId), Summary(u))
                              else Failure(409, TakenMessage))
  {
    var check := CheckRegistration(users.docs, email, password);
    if check.Err? {
      return check.error;
    }
    var passwordHash := hash(password.s);
    if interloper.Some? {
      var raced := users.Create(interloper.value);
    }
    var u := User(newId, check.value, passwordHash, false, now);
    var ok := users.Create(u);
    if !ok {
      // duplicate key (code 11000)
      return Failure(409, TakenMessage);
    }
    reply := Success(201, sign(newId), Summary(u));
  }

  // ---------------------------------------------------------------------------
  // login

  /** `login`. A password that is not a string makes `bcrypt.compare` throw. */
  function Login(users: seq<User>, email: Value, password: Value, compare: Comparer, sign: Signer): (r: Reply)
    ensures r == Failure(400, RequiredMessage) <==> !Truthy(email) || !Truthy(password)
    ensures r.Failure? ==> r.status == 400 || (r.status == 401 && r.error == BadCredentialsMessage)
    ensures r == Failure(401, BadCredentialsMessage) <==>
              && Truthy(email) && Truthy(password)
              && match FindUserByEmail(users, CanonicalEmail(email))
                 case None => true
                 case Some(u) => password.Str? && !compare(password.s, u.passwordHash)
    ensures r == ServerError <==>
              Truthy(email) && Truthy(password) && !password.Str? && FindUserByEmail(users, CanonicalEmail(email)).Some?
    ensures r.Success? ==> && r.status == 200
                           && exists u :: && u in users && u.email == CanonicalEmail(email)
                                          && password.Str? && compare(password.s, u.passwordHash)
                                          && r.user == Summary(u) && r.token == sign(u.id)
  {
    if !Truthy(email) || !Truthy(password) then Failure(400, RequiredMessage)
    else match FindUserByEmail(users, CanonicalEmail(email))
      case None => Failure(401, BadCredentialsMessage)
      case Some(u) =>
        if !password.Str? then ServerError
        else if !compare(password.s, u.passwordHash) then Failure(401, BadCredentialsMessage)
        else Success(200, sign(u.id), Summary(u))
  }

  /** Login does not reveal which addresses are registered: an unknown address gets
      the same answer as a known one with the wrong password. */
  lemma LoginFailureUniform(unknown: seq<User>, known: seq<User>, email: Value, password: string,
                            compare: Comparer, sign: Signer)
    requires Truthy(email) && password != ""
    requires forall u :: u in unknown ==> u.email != CanonicalEmail(email)
    requires FindUserByEmail(known, CanonicalEmail(email)).Some?
    requires !compare(password, FindUserByEmail(known, CanonicalEmail(email)).value.passwordHash)
    ensures Login(unknown, email, Str(password), compare, sign) == Login(known, email, Str(password), compare, sign)
    ensures Login(unknown, email, Str(password), compare, sign) == Failure(401, BadCredentialsMessage)
  {
  }

  /** The address stored last is found when its email is not taken before it. */
  lemma {:induction false} FindAppended(users: seq<User>, u: User)
    requires forall v :: v in users ==> v.email != u.email
    ensures FindUserByEmail(users + [u], u.email) == Some(u)
  {
    if users != [] {
      assert (users + [u])[1..] == users[1..] + [u];
      FindAppended(users[1..], u);
    }
  }

  /** A user who registers can log in: given that `compare` accepts a password
      against its own hash, logging in with the same password succeeds after a
      registration's create, with the address as typed or spelt in any other
      letter case (any string with the same lower case, `ToUpper` included). */
  lemma LoginAfterRegister(users: seq<User>, email: Value, password: string, hash: string -> string,
                           compare: Comparer, sign: Signer, newId: ObjectId, now: int)
    requires CheckRegistration(users, email, Str(password)).Ok?
    requires compare(password, hash(password))
    ensures var u := User(newId, ToLower(email.s), hash(password), false, now);
            UserInsertable(users, u) ==>
              && Login(AfterUserCreate(users, u), email, Str(password), compare, sign) == Success(200, sign(newId), Summary(u))
              && forall t :: ToLower(t) == ToLower(email.s) ==>
                   Login(AfterUserCreate(users, u), Str(t), Str(password), compare, sign) == Success(200, sign(newId), Summary(u))
  {
    var u := User(newId, ToLower(email.s), hash(password), false, now);
    if UserInsertable(users, u) {
      ValidEmailStoredLowercase(email);
      FindAppended(users, u);
      var after := AfterUserCreate(users, u);
      assert FindUserByEmail(after, CanonicalEmail(email)) == Some(u);
      assert password != "";
      forall t | ToLower(t) == ToLower(email.s)
        ensures Login(after, Str(t), Str(password), compare, sign) == Success(200, sign(newId), Summary(u))
      {
        SameLowerSameCanonical(t, email.s);
        LoginFound(after, u, t, password, compare, sign);
      }
    }
  }

  /** Two spellings with the same lower case have the same canonical form. */
  lemma SameLowerSameCanonical(t: string, s: string)
    requires ToLower(t) == ToLower(s)
    ensures |t| == |s| && CanonicalEmail(Str(t)) == CanonicalEmail(Str(s))
  {
    assert |ToLower(t)| == |t|;
  }

  /** Login with an address whose canonical form finds `u`, and a password its hash
      accepts, succeeds as `u`. */
  lemma LoginFound(users: seq<User>, u: User, t: string, password: string, compare: Comparer, sign: Signer)
    requires t != "" && password != ""
    requires FindUserByEmail(users, CanonicalEmail(Str(t))) == Some(u)
    requires compare(password, u.passwordHash)
    ensures Login(users, Str(t), Str(password), compare, sign) == Success(200, sign(u.id), Summary(u))
  {
  }
}
