/** User accounts and the lookups the services make in the user table
    (`findById`, `findByUsername`, `existsByUsername`), plus the username
    normalisation both services apply to what a caller types. */
module Accounts {
  import opened Results
  import opened JavaStrings

  /** A row of the `users` table: generated id, normalised username, password hash. */
  datatype Account = Account(id: int, username: string, passwordHash: string)

  /** The `users` table has a unique constraint on `username` (and ids are primary keys). */
  ghost predicate DirectoryValid(users: seq<Account>) {
    && (forall i, j :: 0 <= i < j < |users| ==> users[i].id != users[j].id)
    && (forall i, j :: 0 <= i < j < |users| ==> users[i].username != users[j].username)
  }

  /** `users.findById(id)`: the account holding that id, if any. */
  function FindById(users: seq<Account>, id: int): (r: Option<Account>)
    ensures r.Some? ==> r.value in users && r.value.id == id
    ensures r.None? ==> forall i :: 0 <= i < |users| ==> users[i].id != id
    decreases |users|
  {
    if users == [] then None
    else if users[0].id == id then Some(users[0])
    else FindById(users[1..], id)
  }

  /** `users.findByUsername(name)`: the account with exactly that username, if any. */
  function FindByUsername(users: seq<Account>, name: string): (r: Option<Account>)
    ensures r.Some? ==> r.value in users && r.value.username == name
    ensures r.None? ==> forall i :: 0 <= i < |users| ==> users[i].username != name
    decreases |users|
  {
    if users == [] then None
    else if users[0].username == name then Some(users[0])
    else FindByUsername(users[1..], name)
  }

  /** Appending an account whose username is new makes it the one found under that name. */
  lemma {:induction false} FindByUsernameAppended(users: seq<Account>, acc: Account)
    requires FindByUsername(users, acc.username).None?
    ensures FindByUsername(users + [acc], acc.username) == Some(acc)
  {
    if users != [] {
      assert (users + [acc])[1..] == users[1..] + [acc];
      FindByUsernameAppended(users[1..], acc);
    }
  }

  /** `normalize(username)`: `null` becomes the empty string, otherwise trim then lower-case. */
  function Normalize(username: Option<string>): (r: string)
    ensures username.None? ==> r == ""
    ensures r == [] || (!IsTrimmable(r[0]) && !IsTrimmable(r[|r| - 1]))
    ensures forall i :: 0 <= i < |r| ==> !('A' <= r[i] <= 'Z')
  {
    if username.None? then "" else ToLower(Trim(username.value))
  }

  /** Normalising twice is normalising once. */
  lemma NormalizeIdempotent(username: Option<string>)
    ensures Normalize(Some(Normalize(username))) == Normalize(username)
  {
    var n := Normalize(username);
    TrimOfTrimmed(n);
    ToLowerOfLower(n);
  }
}
