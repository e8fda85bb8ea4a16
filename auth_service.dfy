/** Registration and login against the user table: the validation chain of `register`, the
    single save it performs, and the credential check of `authenticate`. */
module Auth {
  import opened Results
  import opened JavaStrings
  import opened Accounts

  const INVALID_USERNAME: string := "invalid username; use a-z, 0-9, . _ - (3-50 chars)"
  const SHORT_PASSWORD: string := "password must be at least 6 characters"
  const USERNAME_TAKEN: string := "username already taken"
  const INVALID_CREDENTIALS: string := "invalid credentials"
  /** The message of the BCrypt matcher's exception for a `null` password. */
  const NULL_PASSWORD: string := "rawPassword cannot be null"

  /** One character of the pattern `[a-z0-9._-]`. */
  predicate IsUsernameChar(c: char) {
    ('a' <= c <= 'z') || ('0' <= c <= '9') || c == '.' || c == '_' || c == '-'
  }

  /** The username test of `register`: it is refused when `length()` (UTF-16 units) is below 3
      or above 50, or when it does not match `[a-z0-9._-]+` as a whole. */
  function IsValidUsername(u: string): (ok: bool)
    ensures ok <==> 3 <= |u| <= 50 && forall i :: 0 <= i < |u| ==> IsUsernameChar(u[i])
  {
    var pattern := |u| >= 1 && forall i :: 0 <= i < |u| ==> IsUsernameChar(u[i]);
    !(Utf16Length(u) < 3 || Utf16Length(u) > 50 || !pattern)
  }

  /** The message of the first check of `register` that fails, or `None` when all pass: the
      username is checked first, then the password, then that the name is free. */
  function RegistrationError(users: seq<Account>, username: Option<string>, rawPassword: Option<string>): (r: Option<string>)
    ensures r == Some(INVALID_USERNAME) <==> !IsValidUsername(Normalize(username))
    ensures r == Some(SHORT_PASSWORD) <==>
              IsValidUsername(Normalize(username)) && (rawPassword.None? || Utf16Length(rawPassword.value) < 6)
    ensures r == Some(USERNAME_TAKEN) <==>
              && IsValidUsername(Normalize(username)) && rawPassword.Some? && Utf16Length(rawPassword.value) >= 6
              && exists a :: a in users && a.username == Normalize(username)
    ensures r.None? || r == Some(INVALID_USERNAME) || r == Some(SHORT_PASSWORD) || r == Some(USERNAME_TAKEN)
  {
    var u := Normalize(username);
    if !IsValidUsername(u) then Some(INVALID_USERNAME)
    else if rawPassword.None? || Utf16Length(rawPassword.value) < 6 then Some(SHORT_PASSWORD)
    else if FindByUsername(users, u).Some? then Some(USERNAME_TAKEN)
    else None
  }

  /** `authenticate`: the account stored under the normalised name when the password matches
      its hash; an unknown name and a wrong password give the same error. The BCrypt
      matcher refuses a `null` password with its own exception, which is only reached once
      the name is found. */
  function Authenticate(users: seq<Account>, matches: (string, string) -> bool,
                        username: Option<string>, rawPassword: Option<string>): (r: Result<Account>)
    ensures r.Err? ==> r == Err(INVALID_CREDENTIALS) || r == Err(NULL_PASSWORD)
    ensures r == Err(NULL_PASSWORD) <==> rawPassword.None? && exists a :: a in users && a.username == Normalize(username)
    ensures r.Ok? ==>
              && rawPassword.Some? && r.value in users && r.value.username == Normalize(username)
              && matches(rawPassword.value, r.value.passwordHash)
    ensures DirectoryValid(users) ==>
              (r.Ok? <==> rawPassword.Some? &&
                          exists a :: a in users && a.username == Normalize(username) && matches(rawPassword.value, a.passwordHash))
  {
    match FindByUsername(users, Normalize(username))
    case None => Err(INVALID_CREDENTIALS)
    case Some(acc) =>
      if rawPassword.None? then Err(NULL_PASSWORD)
      else if matches(rawPassword.value, acc.passwordHash) then Ok(acc)
      else Err(INVALID_CREDENTIALS)
  }

  /** A name `register` accepts is already in normal form, so it is stored as typed. */
  lemma ValidUsernameIsNormal(u: string)
    requires IsValidUsername(u)
    ensures Normalize(Some(u)) == u
  {
    assert !IsTrimmable(u[0]) && !IsTrimmable(u[|u| - 1]);
    TrimOfTrimmed(u);
    ToLowerOfLower(u);
  }

  /** After a successful registration, logging in with the same name and password succeeds
      and yields the new account, provided the encoder accepts its own hash. */
  lemma RegisteredUserAuthenticates(users: seq<Account>, id: int, encode: string -> string,
                                    matches: (string, string) -> bool, username: Option<string>, password: string)
    requires RegistrationError(users, username, Some(password)).None?
    requires matches(password, encode(password))
    ensures var acc := Account(id, Normalize(username), encode(password));
            Authenticate(users + [acc], matches, username, Some(password)) == Ok(acc)
  {
    FindByUsernameAppended(users, Account(id, Normalize(username), encode(password)));
  }

  /** Names are compared after normalisation: once a name is registered, every spelling that
      normalises to it is refused as taken. */
  lemma RegisteredNameTaken(users: seq<Account>, acc: Account, other: Option<string>, rawPassword: Option<string>)
    requires IsValidUsername(Normalize(other)) && Normalize(other) == acc.username
    requires rawPassword.Some? && Utf16Length(rawPassword.value) >= 6
    ensures RegistrationError(users + [acc], other, rawPassword) == Some(USERNAME_TAKEN)
  {
    assert acc in users + [acc];
  }

  class AuthService {
    /** The `users` table, in insertion order. */
    var users: seq<Account>
    /** The identity column's next value. */
    var nextId: int
    /** `encoder.encode` (BCrypt). */
    const encode: string -> string
    /** `encoder.matches(raw, hash)` for a non-null `raw`. */
    const matches: (string, string) -> bool

    /** The table keeps its unique constraints and every id is below the next one. */
    ghost predicate Valid()
      reads this
    {
      DirectoryValid(users) && forall i :: 0 <= i < |users| ==> users[i].id < nextId
    }

    constructor (users: seq<Account>, nextId: int, encode: string -> string, matches: (string, string) -> bool)
      requires DirectoryValid(users) && forall i :: 0 <= i < |users| ==> users[i].id < nextId
      ensures Valid() && this.users == users && this.nextId == nextId
      ensures this.encode == encode && this.matches == matches
    {
      this.users := users;
      this.nextId := nextId;
      this.encode := encode;
      this.matches := matches;
    }

    /** `register(username, rawPassword)`: a refused registration leaves the table as it was;
        an accepted one appends exactly one account, under the normalised name and with the
        encoder's hash of the password. */
    method Register(username: Option<string>, rawPassword: Option<string>) returns (r: Result<Account>)
      requires Valid()
      modifies this
      ensures Valid()
      ensures var err := RegistrationError(old(users), username, rawPassword);
              && (err.Some? ==> r == Err(err.value) && users == old(users) && nextId == old(nextId))
              && (err.None? ==> && r == Ok(Account(old(nextId), Normalize(username), encode(rawPassword.value)))
                                && users == old(users) + [r.value] && nextId == old(nextId) + 1)
    {
      var u := Normalize(username);
      if Utf16Length(u) < 3 || Utf16Length(u) > 50 || !(|u| >= 1 && forall i :: 0 <= i < |u| ==> IsUsernameChar(u[i])) {
        return Err(INVALID_USERNAME);
      }
      if rawPassword.None? || Utf16Length(rawPassword.value) < 6 {
        return Err(SHORT_PASSWORD);
      }
      if FindByUsername(users, u).Some? {
        return Err(USERNAME_TAKEN);
      }
      var hash := encode(rawPassword.value);
      var acc := Account(nextId, u, hash);
      users := users + [acc];
      nextId := nextId + 1;
      return Ok(acc);
    }
  }
}
