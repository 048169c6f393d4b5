/**
 * The user service: sign-up validation and insertion, the login check
 * sequence, username change, and the lookups by exact field or by
 * case-insensitive prefix. The user collection is a sequence in the database's
 * natural order, so "find one" is the first match. bcrypt and jwt are opaque
 * functions handed in by the caller.
 */
module Users {
  import opened Wrappers
  import opened Http

  datatype User = User(
    id: string,
    username: string,
    email: string,
    password: string,  // the bcrypt hash
    role: string,
    created_at: string)

  /** What sign-up and login return: the user's id and a signed token for it. */
  datatype Session = Session(id: string, token: string)

  /**
   * bcrypt and jwt: `hash` the password, `compare` a password with a hash,
   * `sign` a token carrying a user id, stamped with the time it is issued (its
   * `iat` and `exp` claims), and `verify` a token, giving its
   * `userId` claim or None when verification throws a JsonWebTokenError.
   */
  datatype Crypto = Crypto(
    hash: string -> string,
    compare: (string, string) -> bool,
    sign: (string, string) -> string,
    verify: string -> Option<string>)

  // ---------------------------------------------------------------------------
  // Sign-up validation

  /** The request check: all three strings present and a known role. */
  function WellFormedSignUp(username: string, email: string, role: string, password: string): (r: bool)
    ensures r <==> |username| > 0 && |email| > 0 && |password| > 0 && role in {"admin", "student"}
  {
    username != "" && email != "" && password != "" && (role == "admin" || role == "student")
  }

  /** The characters JavaScript's `\s` matches; `\S` is every other character. */
  predicate IsWhitespace(c: char) {
    var n := c as int;
    || (9 <= n <= 13) || n == 32 || n == 0xA0 || n == 0x1680
    || (0x2000 <= n <= 0x200A) || n == 0x2028 || n == 0x2029
    || n == 0x202F || n == 0x205F || n == 0x3000 || n == 0xFEFF
  }

  predicate NoWhitespace(s: string) {
    forall i :: 0 <= i < |s| ==> !IsWhitespace(s[i])
  }

  /**
   * The language of `^\S+@\S+\.\S+$`: only non-whitespace characters, with
   * an `@` that has at least one character before it and a `.` that comes at
   * least two characters after the `@` and at least one before the end.
   */
  ghost predicate EmailShape(s: string) {
    && NoWhitespace(s)
    && exists i, j :: 0 < i && i + 1 < j && j + 1 < |s| && s[i] == '@' && s[j] == '.'
  }

  /** The first index at or after `from` holding `c`, or `|s|`. */
  function IndexFrom(s: string, c: char, from: nat): (k: nat)
    requires from <= |s|
    ensures from <= k <= |s|
    ensures k < |s| ==> s[k] == c
    ensures forall i :: from <= i < k ==> s[i] != c
    decreases |s| - from
  {
    if from == |s| then |s|
    else if s[from] == c then from
    else IndexFrom(s, c, from + 1)
  }

  /** The last index before `end` holding `c`, or -1. */
  function LastIndexBefore(s: string, c: char, end: nat): (k: int)
    requires end <= |s|
    ensures -1 <= k < end
    ensures k >= 0 ==> s[k] == c
    ensures forall i :: k < i < end ==> s[i] != c
  {
    if end == 0 then -1
    else if s[end - 1] == c then end - 1
    else LastIndexBefore(s, c, end - 1)
  }

  /**
   * `emailRegex.test(email)`: the earliest usable `@` and the latest usable
   * `.` decide whether any split fits.
   */
  function IsValidEmail(s: string): (r: bool)
    ensures r <==> EmailShape(s)
  {
    if |s| < 2 || !NoWhitespace(s) then false
    else
      var at := IndexFrom(s, '@', 1);
      var dot := LastIndexBefore(s, '.', |s| - 1);
      at < |s| && at + 2 <= dot
  }

  /** Read as the regex: a non-whitespace run, `@`, a run, `.`, a run. */
  lemma ValidEmailFromParts(local: string, domain: string, tld: string)
    requires |local| > 0 && |domain| > 0 && |tld| > 0
    requires NoWhitespace(local) && NoWhitespace(domain) && NoWhitespace(tld)
    ensures IsValidEmail(local + "@" + domain + "." + tld)
  {
    var s := local + "@" + domain + "." + tld;
    var i, j := |local|, |local| + 1 + |domain|;
    assert s[i] == '@' && s[j] == '.';
    forall k | 0 <= k < |s| ensures !IsWhitespace(s[k]) {
      if k < i {
        assert s[k] == local[k];
      } else if i < k < j {
        assert s[k] == domain[k - i - 1];
      } else if j < k {
        assert s[k] == tld[k - j - 1];
      }
    }
  }

  lemma EmailExamples()
    ensures IsValidEmail("ana@mail.com")
    ensures IsValidEmail("a@b.c.d")
    ensures !IsValidEmail("ana@mail")
    ensures !IsValidEmail("a@.c")
    ensures !IsValidEmail("@mail.com")
    ensures !IsValidEmail("ana @mail.com")
  {
    ValidEmailFromParts("ana", "mail", "com");
    assert "ana" + "@" + "mail" + "." + "com" == "ana@mail.com";
    ValidEmailFromParts("a", "b.c", "d");
    assert "a" + "@" + "b.c" + "." + "d" == "a@b.c.d";
    assert "ana @mail.com"[3] == ' ' && IsWhitespace(' ');
  }

  // ---------------------------------------------------------------------------
  // Queries

  /** ASCII case folding, as the `i` flag does on the letters A-Z and a-z. */
  function Fold(c: char): char {
    if 'A' <= c <= 'Z' then (c as int + 32) as char else c
  }

  /** `new RegExp('^' + p, 'i').test(s)` for a pattern without metacharacters. */
  function HasPrefixIgnoringCase(s: string, p: string): (r: bool)
    ensures r <==> |p| <= |s| && forall i :: 0 <= i < |p| ==> Fold(s[i]) == Fold(p[i])
  {
    |p| == 0 || (|s| > 0 && Fold(s[0]) == Fold(p[0]) && HasPrefixIgnoringCase(s[1..], p[1..]))
  }

  /** Every name is found by its own spelling, and by any re-casing of any of its prefixes. */
  lemma PrefixOfItself(s: string, n: nat, q: string)
    requires n <= |s| && |q| == n
    requires forall i :: 0 <= i < n ==> Fold(q[i]) == Fold(s[i])
    ensures HasPrefixIgnoringCase(s, s)
    ensures HasPrefixIgnoringCase(s, q)
  {
  }

  /** The filter documents the service passes to `find`/`findOne`. */
  datatype Query =
    | UsernameIs(username: string)
    | EmailIs(email: string)
    | IdIs(id: string)
    | UsernameStartsWith(prefix: string)
    | RoleStartsWith(prefix: string)

  predicate Matches(u: User, q: Query) {
    match q
    case UsernameIs(name) => u.username == name
    case EmailIs(email) => u.email == email
    case IdIs(id) => u.id == id
    case UsernameStartsWith(p) => HasPrefixIgnoringCase(u.username, p)
    case RoleStartsWith(p) => HasPrefixIgnoringCase(u.role, p)
  }

  /** `find(q)`: every matching user, in collection order. */
  function FindAll(users: seq<User>, q: Query): (r: seq<User>)
    ensures forall u :: u in r <==> u in users && Matches(u, q)
    ensures |r| <= |users|
  {
    if users == [] then []
    else (if Matches(users[0], q) then [users[0]] else []) + FindAll(users[1..], q)
  }

  /** `find` over a concatenation is `find` over each part, in that order. */
  lemma {:induction false} FindAllConcat(a: seq<User>, b: seq<User>, q: Query)
    ensures FindAll(a + b, q) == FindAll(a, q) + FindAll(b, q)
  {
    if a == [] {
      assert a + b == b;
    } else {
      assert (a + b)[1..] == a[1..] + b;
      FindAllConcat(a[1..], b, q);
    }
  }

  /** Every matching entry is returned as often as it is stored; no other entry is returned. */
  lemma {:induction false} FindAllMultiset(users: seq<User>, q: Query)
    ensures forall u :: multiset(FindAll(users, q))[u] == if Matches(u, q) then multiset(users)[u] else 0
  {
    if users != [] {
      FindAllMultiset(users[1..], q);
      assert users == [users[0]] + users[1..];
    }
  }

  /**
   * Collection order: a matching entry is preceded in the result exactly by
   * the matches that precede it in the collection.
   */
  lemma FindAllPosition(users: seq<User>, q: Query, i: int)
    requires 0 <= i < |users| && Matches(users[i], q)
    ensures |FindAll(users[..i], q)| < |FindAll(users, q)|
    ensures FindAll(users, q)[|FindAll(users[..i], q)|] == users[i]
  {
    assert users == users[..i] + ([users[i]] + users[i + 1..]);
    FindAllConcat(users[..i], [users[i]] + users[i + 1..], q);
    assert ([users[i]] + users[i + 1..])[1..] == users[i + 1..];
  }

  /** `FindAllPosition` for every matching entry at once. */
  lemma FindAllOrder(users: seq<User>, q: Query)
    ensures forall i :: 0 <= i < |users| && Matches(users[i], q) ==>
      |FindAll(users[..i], q)| < |FindAll(users, q)| && FindAll(users, q)[|FindAll(users[..i], q)|] == users[i]
  {
    forall i | 0 <= i < |users| && Matches(users[i], q)
      ensures |FindAll(users[..i], q)| < |FindAll(users, q)| && FindAll(users, q)[|FindAll(users[..i], q)|] == users[i]
    {
      FindAllPosition(users, q, i);
    }
  }

  /** `findOne(q)`: the position of the first matching user. */
  function FindFirst(users: seq<User>, q: Query): (k: Option<nat>)
    ensures k.Some? ==> k.value < |users| && Matches(users[k.value], q)
    ensures k.Some? ==> forall i :: 0 <= i < k.value ==> !Matches(users[i], q)
    ensures k.None? ==> forall u :: u in users ==> !Matches(u, q)
  {
    if users == [] then None
    else if Matches(users[0], q) then Some(0)
    else match FindFirst(users[1..], q)
      case None => None
      case Some(k) => Some(k + 1)
  }

  /** `findOne` returns the head of what `find` returns for the same filter. */
  lemma {:induction false} FindFirstIsHeadOfFindAll(users: seq<User>, q: Query)
    ensures FindFirst(users, q).None? <==> FindAll(users, q) == []
    ensures FindFirst(users, q).Some? ==> FindAll(users, q)[0] == users[FindFirst(users, q).value]
  {
    if users != [] && !Matches(users[0], q) {
      FindFirstIsHeadOfFindAll(users[1..], q);
    }
  }

  // ---------------------------------------------------------------------------
  // The service

  class UserService {
    /** The user collection, in natural order. */
    var users: seq<User>

    /** What the unique indexes on `username` and `email`, and `_id`, guarantee. */
    ghost predicate Valid()
      reads this
    {
      forall i, j :: 0 <= i < j < |users| ==>
        && users[i].id != users[j].id
        && users[i].username != users[j].username
        && users[i].email != users[j].email
    }

    /** A collection the unique indexes admit. */
    constructor (users: seq<User>)
      requires forall i, j :: 0 <= i < j < |users| ==>
        users[i].id != users[j].id && users[i].username != users[j].username && users[i].email != users[j].email
      ensures this.users == users && Valid()
    {
      this.users := users;
    }

    function FindOneByUsername(username: string): (r: Option<User>)
      reads this
      ensures r.Some? ==> r.value in users && HasPrefixIgnoringCase(r.value.username, username)
      ensures r.None? ==> forall u :: u in users ==> !HasPrefixIgnoringCase(u.username, username)
      ensures r.Some? ==> r.value == FindAll(users, UsernameStartsWith(username))[0]
    {
      FindFirstIsHeadOfFindAll(users, UsernameStartsWith(username));
      match FindFirst(users, UsernameStartsWith(username))
      case None => None
      case Some(k) => Some(users[k])
    }

    /**
     * Every user whose username starts with the pattern, each as often as it is
     * stored and in collection order.
     */
    function GetUsersByUsername(username: string): (r: seq<User>)
      reads this
      ensures forall u :: u in r <==> u in users && HasPrefixIgnoringCase(u.username, username)
      ensures forall u :: multiset(r)[u] == if HasPrefixIgnoringCase(u.username, username) then multiset(users)[u] else 0
      ensures forall i :: 0 <= i < |users| && HasPrefixIgnoringCase(users[i].username, username) ==>
        var p := |FindAll(users[..i], UsernameStartsWith(username))|;
        p < |r| && r[p] == users[i]
    {
      FindAllMultiset(users, UsernameStartsWith(username));
      FindAllOrder(users, UsernameStartsWith(username));
      FindAll(users, UsernameStartsWith(username))
    }

    /**
     * Every user whose role starts with the pattern, each as often as it is
     * stored and in collection order.
     */
    function GetUsersByRole(role: string): (r: seq<User>)
      reads this
      ensures forall u :: u in r <==> u in users && HasPrefixIgnoringCase(u.role, role)
      ensures forall u :: multiset(r)[u] == if HasPrefixIgnoringCase(u.role, role) then multiset(users)[u] else 0
      ensures forall i :: 0 <= i < |users| && HasPrefixIgnoringCase(users[i].role, role) ==>
        var p := |FindAll(users[..i], RoleStartsWith(role))|;
        p < |r| && r[p] == users[i]
    {
      FindAllMultiset(users, RoleStartsWith(role));
      FindAllOrder(users, RoleStartsWith(role));
      FindAll(users, RoleStartsWith(role))
    }

    /** The user whose id is `id` (the `_id` is unique in the collection). */
    function GetUserById(id: string): (r: Option<User>)
      reads this
      ensures r.Some? ==> r.value in users && r.value.id == id
      ensures r.None? ==> forall u :: u in users ==> u.id != id
      ensures Valid() && r.Some? ==> forall u :: u in users && u.id == id ==> u == r.value
    {
      match FindFirst(users, IdIs(id))
      case None => None
      case Some(k) => Some(users[k])
    }

    function GetUserByEmail(email: string): (r: Option<User>)
      reads this
      ensures r.Some? ==> r.value in users && r.value.email == email
      ensures r.None? ==> forall u :: u in users ==> u.email != email
      ensures Valid() && r.Some? ==> forall u :: u in users && u.email == email ==> u == r.value
    {
      match FindFirst(users, EmailIs(email))
      case None => None
      case Some(k) => Some(users[k])
    }

    /** Any user with a matching name is found by the exact name. */
    lemma ExactNameIsFound(u: User)
      requires u in users
      ensures FindOneByUsername(u.username).Some?
    {
    }

    /**
     * Bad request (400) for missing fields or an unknown role, then for a
     * malformed email; conflict (409) for a taken username before a taken
     * email; otherwise exactly one user is appended.
     */
    method SignUp(username: string, email: string, role: string, password: string,
                  crypto: Crypto, id: string, now: string) returns (r: Result<Session, Error>)
      requires forall u :: u in users ==> u.id != id
      modifies this
      ensures !WellFormedSignUp(username, email, role, password) ==>
        r == Failure(HttpException(BadRequest)) && users == old(users)
      ensures WellFormedSignUp(username, email, role, password) && !EmailShape(email) ==>
        r == Failure(HttpException(BadRequest)) && users == old(users)
      ensures WellFormedSignUp(username, email, role, password) && EmailShape(email)
              && (exists u :: u in old(users) && u.username == username) ==>
        r == Failure(HttpException(Conflict)) && users == old(users)
      ensures WellFormedSignUp(username, email, role, password) && EmailShape(email)
              && (forall u :: u in old(users) ==> u.username != username)
              && (exists u :: u in old(users) && u.email == email) ==>
        r == Failure(HttpException(Conflict)) && users == old(users)
      ensures WellFormedSignUp(username, email, role, password) && EmailShape(email)
              && (forall u :: u in old(users) ==> u.username != username && u.email != email) ==>
        r.Success?
      ensures r.Success? ==>
        && WellFormedSignUp(username, email, role, password) && EmailShape(email)
        && r.value == Session(id, crypto.sign(id, now))
        && users == old(users) + [User(id, username, email, crypto.hash(password), role, now)]
      ensures old(Valid()) ==> Valid()
    {
      if !WellFormedSignUp(username, email, role, password) {
        return Failure(HttpException(BadRequest));
      }
      if !IsValidEmail(email) {
        return Failure(HttpException(BadRequest));
      }
      var existingUser := FindFirst(users, UsernameIs(username));
      if existingUser.Some? {
        return Failure(HttpException(Conflict));
      }
      var existingEmail := FindFirst(users, EmailIs(email));
      if existingEmail.Some? {
        return Failure(HttpException(Conflict));
      }
      var hashedPassword := crypto.hash(password);
      users := users + [User(id, username, email, hashedPassword, role, now)];
      r := Success(Session(id, crypto.sign(id, now)));
    }

    /** Bad request (400), then unknown username (404), then wrong password (401). */
    method Login(username: string, password: string, crypto: Crypto, now: string) returns (r: Result<Session, Error>)
      ensures username == "" || password == "" ==> r == Failure(HttpException(BadRequest))
      ensures username != "" && password != "" && (forall u :: u in users ==> u.username != username) ==>
        r == Failure(HttpException(NotFound))
      ensures username != "" && password != "" && (exists u :: u in users && u.username == username) ==>
        var k := FindFirst(users, UsernameIs(username)).value;
        r == if crypto.compare(password, users[k].password)
             then Success(Session(users[k].id, crypto.sign(users[k].id, now)))
             else Failure(HttpException(Unauthorized))
      ensures Valid() && r.Success? ==> forall u :: u in users && u.username == username ==> r.value.id == u.id
    {
      if username == "" || password == "" {
        return Failure(HttpException(BadRequest));
      }
      var found := FindFirst(users, UsernameIs(username));
      if found.None? {
        return Failure(HttpException(NotFound));
      }
      var user := users[found.value];
      var isPasswordMatch := crypto.compare(password, user.password);
      if !isPasswordMatch {
        return Failure(HttpException(Unauthorized));
      }
      r := Success(Session(user.id, crypto.sign(user.id, now)));
    }

    /**
     * An invalid token is 401. A name held by anyone, the caller included, is
     * 409. The not-found guard tests the decoded token, so a missing user is
     * never 404: the assignment to the null document fails instead.
     */
    method UpdateUser(authToken: string, newUsername: string, crypto: Crypto) returns (r: Result<(), Error>)
      modifies this
      ensures r != Failure(HttpException(NotFound))
      ensures crypto.verify(authToken).None? ==>
        r == Failure(HttpException(Unauthorized)) && users == old(users)
      ensures crypto.verify(authToken).Some? && (exists u :: u in old(users) && u.username == newUsername) ==>
        r == Failure(HttpException(Conflict)) && users == old(users)
      ensures crypto.verify(authToken).Some? && (forall u :: u in old(users) ==> u.username != newUsername)
              && (forall u :: u in old(users) ==> u.id != crypto.verify(authToken).value) ==>
        r == Failure(OtherError) && users == old(users)
      ensures crypto.verify(authToken).Some? && (forall u :: u in old(users) ==> u.username != newUsername)
              && (exists u :: u in old(users) && u.id == crypto.verify(authToken).value) ==>
        r.Success?
      ensures r.Success? ==>
        && crypto.verify(authToken).Some?
        && var k := FindFirst(old(users), IdIs(crypto.verify(authToken).value));
        && k.Some?
        && users == old(users)[k.value := old(users)[k.value].(username := newUsername)]
      ensures old(Valid()) ==> Valid()
    {
      var decoded := crypto.verify(authToken);
      if decoded.None? {
        return Failure(HttpException(Unauthorized));
      }
      var user := FindFirst(users, IdIs(decoded.value));
      var existingUser := FindFirst(users, UsernameIs(newUsername));
      if existingUser.Some? {
        return Failure(HttpException(Conflict));
      }
      if user.None? {
        return Failure(OtherError);
      }
      users := users[user.value := users[user.value].(username := newUsername)];
      r := Success(());
    }
  }

  /**
   * A caller that signs up at `signUpTime` and then logs in at `loginTime`
   * with the same name and password gets the new user's id back, with a token
   * issued at the login time, provided bcrypt accepts a password against its
   * own hash. The two tokens agree when both are issued at the same time.
   */
  method SignUpThenLogIn(service: UserService, username: string, email: string, role: string,
                         password: string, crypto: Crypto, id: string, signUpTime: string, loginTime: string)
    returns (signedUp: Result<Session, Error>, loggedIn: Result<Session, Error>)
    requires forall u :: u in service.users ==> u.id != id
    requires crypto.compare(password, crypto.hash(password))
    modifies service
    ensures signedUp.Success? ==>
      && signedUp == Success(Session(id, crypto.sign(id, signUpTime)))
      && loggedIn == Success(Session(id, crypto.sign(id, loginTime)))
    ensures signedUp.Success? && signUpTime == loginTime ==> loggedIn == signedUp
    ensures WellFormedSignUp(username, email, role, password) && EmailShape(email)
            && (forall u :: u in old(service.users) ==> u.username != username && u.email != email) ==>
      signedUp.Success? && loggedIn.Success? && loggedIn.value.id == id
  {
    signedUp := service.SignUp(username, email, role, password, crypto, id, signUpTime);
    loggedIn := service.Login(username, password, crypto, loginTime);
    if signedUp.Success? {
      var k := FindFirst(service.users, UsernameIs(username));
      assert service.users[|service.users| - 1].username == username;
      assert k.Some? && k.value == |service.users| - 1;
    }
  }
}
