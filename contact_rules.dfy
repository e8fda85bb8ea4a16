/** The contact-relationship engine as functions over the contents of the `contacts`
    table: a map from (owner id, target id) to the record stored for that ordered pair.
    Each operation yields its result and the table afterwards; `ContactService` is
    proved to do exactly this to its objects. */
module ContactRules {
  import opened Results
  import opened JavaStrings
  import opened Accounts
  import opened ContactRelations

  /** (owner id, target id): the unique constraint `uk_contacts_pair`. */
  type Key = (int, int)
  type Rows = map<Key, Rel>

  /** Every record sits under its own (owner, target) pair, and nobody owns a record about themself. */
  ghost predicate WellKeyed(rows: Rows) {
    forall k | k in rows :: rows[k].user.id == k.0 && rows[k].contact.id == k.1 && k.0 != k.1
  }

  /** What the API reports about one relationship. */
  datatype ContactDTO = ContactDTO(id: int, username: string, status: string)

  /** An operation's result together with the table it leaves behind. */
  datatype Step<T> = Step(result: Result<T>, rows: Rows)

  // ---------------------------------------------------------------------------
  // Identity lookup
  // ---------------------------------------------------------------------------

  /** `requireUser(principal)`: the caller's account, looked up by the principal's name as given. */
  function RequireUser(users: seq<Account>, principal: Option<string>): (r: Result<Account>)
    ensures principal.None? ==> r == Err("unauthenticated")
    ensures principal.Some? ==> (r.Ok? <==> FindByUsername(users, principal.value).Some?)
    ensures r.Err? && principal.Some? ==> r.error == "user not found"
    ensures r.Ok? ==> r.value in users && principal.Some? && r.value.username == principal.value
  {
    if principal.None? then Err("unauthenticated")
    else
      match FindByUsername(users, principal.value)
      case None => Err("user not found")
      case Some(acc) => Ok(acc)
  }

  /** The id that `Long.parseLong(ref)` yields, if it yields one (`null` throws). */
  function NumericRef(ref: Option<string>): Option<int> {
    if ref.None? then None else ParseLong(ref.value)
  }

  /** `addContact`'s own lookup: by numeric id first, then by normalised username when the
      reference is not a number or no account has that id. */
  function ResolveForAdd(users: seq<Account>, ref: Option<string>): (r: Option<Account>)
    ensures r.Some? ==> r.value in users
    ensures NumericRef(ref).Some? && FindById(users, NumericRef(ref).value).Some? ==>
              r == FindById(users, NumericRef(ref).value)
    ensures NumericRef(ref).None? ==> r == FindByUsername(users, Normalize(ref))
    ensures NumericRef(ref).Some? && FindById(users, NumericRef(ref).value).None? ==>
              r == FindByUsername(users, Normalize(ref))
  {
    var byId := if NumericRef(ref).Some? then FindById(users, NumericRef(ref).value) else None;
    if byId.Some? then byId else FindByUsername(users, Normalize(ref))
  }

  /** `resolveUser(ref)`, used by `accept` and `remove`: a numeric reference is looked up
      by id only, never by username. */
  function ResolveUser(users: seq<Account>, ref: Option<string>): (r: Option<Account>)
    ensures r.Some? ==> r.value in users
    ensures NumericRef(ref).Some? ==> r == FindById(users, NumericRef(ref).value)
    ensures NumericRef(ref).None? ==> r == FindByUsername(users, Normalize(ref))
  {
    if NumericRef(ref).Some? then FindById(users, NumericRef(ref).value)
    else FindByUsername(users, Normalize(ref))
  }

  /** The two resolvers disagree on a username that is also a number: with an account named
      "007" and no account with id 7, `addContact` finds it and `accept`/`remove` do not. */
  lemma ResolversDisagreeOnNumericUsername(users: seq<Account>, acc: Account)
    requires users == [acc] && acc.username == "007" && acc.id != 7
    ensures ResolveForAdd(users, Some("007")) == Some(acc)
    ensures ResolveUser(users, Some("007")) == None
  {
    assert ParseLong("007") == Some(7) by {
      assert AllDigits("007");
      assert DigitsValue("007") == DigitsValue("00") * 10 + 7;
      assert DigitsValue("00") == DigitsValue("0") * 10;
    }
    assert Trim("007") == "007" by { TrimOfTrimmed("007"); }
    assert Normalize(Some("007")) == "007" by { ToLowerOfLower("007"); }
  }

  // ---------------------------------------------------------------------------
  // Queries
  // ---------------------------------------------------------------------------

  /** The view `listContacts` reports for an accepted record: the target, marked ACCEPTED. */
  function ContactView(r: Rel): ContactDTO {
    ContactDTO(r.contact.id, r.contact.username, r.status.Name())
  }

  /** The view `incomingRequests` reports for a record: its owner, the requester. */
  function RequesterView(r: Rel): ContactDTO {
    ContactDTO(r.user.id, r.user.username, r.status.Name())
  }

  /** Records owned by `me` with status ACCEPTED, among the keys `keys`. */
  predicate IsContactOf(rows: Rows, me: Account, k: Key) {
    k in rows && rows[k].user.id == me.id && rows[k].status == Accepted
  }

  function ContactsAmong(rows: Rows, me: Account, keys: set<Key>): set<ContactDTO> {
    set k | k in keys && IsContactOf(rows, me, k) :: ContactView(rows[k])
  }

  /** The filter of `incomingRequests`: a PENDING record aimed at `me` is kept when `me` owns
      no record back, or when it was created strictly before that record. The inverse
      record's status plays no part, and equal timestamps drop the request. */
  predicate IsIncomingFor(rows: Rows, me: Account, k: Key) {
    && k in rows
    && rows[k].contact.id == me.id
    && rows[k].status == Pending
    && var inverse := (me.id, rows[k].user.id);
       inverse !in rows || rows[k].createdAt < rows[inverse].createdAt
  }

  function IncomingAmong(rows: Rows, me: Account, keys: set<Key>): set<ContactDTO> {
    set k | k in keys && IsIncomingFor(rows, me, k) :: RequesterView(rows[k])
  }

  /** What `listContacts` returns, as a set (the table returns it in no fixed order). */
  function ContactList(rows: Rows, users: seq<Account>, principal: Option<string>): Result<set<ContactDTO>> {
    match RequireUser(users, principal)
    case Err(e) => Err(e)
    case Ok(me) => Ok(ContactsAmong(rows, me, rows.Keys))
  }

  /** What `incomingRequests` returns, as a set. */
  function IncomingList(rows: Rows, users: seq<Account>, principal: Option<string>): Result<set<ContactDTO>> {
    match RequireUser(users, principal)
    case Err(e) => Err(e)
    case Ok(me) => Ok(IncomingAmong(rows, me, rows.Keys))
  }

  // ---------------------------------------------------------------------------
  // Commands
  // ---------------------------------------------------------------------------

  /** `addContact(ref, principal)` at clock reading `now`. */
  function AddOutcome(rows: Rows, users: seq<Account>, principal: Option<string>, ref: Option<string>, now: int): (s: Step<ContactDTO>)
    ensures s.result.Err? ==> s.rows == rows
    ensures forall k :: k in rows ==> k in s.rows
    ensures WellKeyed(rows) ==> WellKeyed(s.rows)
  {
    match RequireUser(users, principal)
    case Err(e) => Step(Err(e), rows)
    case Ok(me) =>
      match ResolveForAdd(users, ref)
      case None => Step(Err("user not found"), rows)
      case Some(target) => AddTarget(rows, me, target, now)
  }

  /** The rest of `addContact` once the caller `me` and the `target` are known. */
  function AddTarget(rows: Rows, me: Account, target: Account, now: int): (s: Step<ContactDTO>)
    ensures s.result.Err? ==> s.rows == rows
    ensures forall k :: k in rows ==> k in s.rows
    ensures WellKeyed(rows) ==> WellKeyed(s.rows)
  {
    if target.id == me.id then Step(Err("cannot add yourself"), rows)
    else
      var mine := (me.id, target.id);
      var theirs := (target.id, me.id);
      if mine in rows then
        var existing := rows[mine];
        Step(Ok(ContactDTO(existing.contact.id, existing.contact.username, existing.status.Name())), rows)
      else if theirs in rows && rows[theirs].status == Pending then
        var rows' := rows[mine := Rel(me, target, Accepted, now)][theirs := rows[theirs].(status := Accepted)];
        Step(Ok(ContactDTO(target.id, target.username, "ACCEPTED")), rows')
      else if theirs in rows && rows[theirs].status == Accepted then
        var rows' := rows[mine := Rel(me, target, Accepted, now)];
        Step(Ok(ContactDTO(target.id, target.username, "ACCEPTED")), rows')
      else if theirs in rows then
        Step(Err("cannot add contact: blocked"), rows)
      else
        var rows' := rows[mine := Rel(me, target, Pending, now)];
        Step(Ok(ContactDTO(target.id, target.username, "PENDING")), rows')
  }

  /** `accept(ref, principal)` at clock reading `now`. */
  function AcceptOutcome(rows: Rows, users: seq<Account>, principal: Option<string>, ref: Option<string>, now: int): (s: Step<ContactDTO>)
    ensures s.result.Err? ==> s.rows == rows
    ensures forall k :: k in rows ==> k in s.rows
    ensures WellKeyed(rows) ==> WellKeyed(s.rows)
    ensures s.result.Ok? ==> s.result.value.status == "ACCEPTED"
  {
    match RequireUser(users, principal)
    case Err(e) => Step(Err(e), rows)
    case Ok(me) =>
      match ResolveUser(users, ref)
      case None => Step(Err("user not found"), rows)
      case Some(other) => AcceptFrom(rows, me, other, now)
  }

  /** The rest of `accept` once the caller `me` and the requester `other` are known. */
  function AcceptFrom(rows: Rows, me: Account, other: Account, now: int): (s: Step<ContactDTO>)
    ensures s.result.Err? ==> s.rows == rows
    ensures forall k :: k in rows ==> k in s.rows
    ensures WellKeyed(rows) ==> WellKeyed(s.rows)
    ensures s.result.Ok? ==> s.result.value.status == "ACCEPTED"
  {
    var incoming := (other.id, me.id);
    var mine := (me.id, other.id);
    if incoming !in rows then Step(Err("no request found"), rows)
    else if rows[incoming].status != Pending then Step(Err("no pending request to accept"), rows)
    else if mine in rows && rows[mine].status == Pending && rows[mine].createdAt < rows[incoming].createdAt then
      Step(Err("only the recipient can accept this request"), rows)
    else
      var myRecord := if mine in rows then rows[mine] else Rel(me, other, Pending, now);
      var rows' := rows[incoming := rows[incoming].(status := Accepted)][mine := myRecord.(status := Accepted)];
      Step(Ok(ContactDTO(other.id, other.username, "ACCEPTED")), rows')
  }

  /** `remove(ref, principal)`: deletes both directions where present. */
  function RemoveOutcome(rows: Rows, users: seq<Account>, principal: Option<string>, ref: Option<string>): (s: Step<()>)
    ensures s.rows.Keys <= rows.Keys
    ensures forall k :: k in s.rows ==> s.rows[k] == rows[k]
    ensures WellKeyed(rows) ==> WellKeyed(s.rows)
    ensures s.result.Err? ==> s.rows == rows
  {
    match RequireUser(users, principal)
    case Err(e) => Step(Err(e), rows)
    case Ok(me) =>
      match ResolveUser(users, ref)
      case None => Step(Ok(()), rows)
      case Some(other) => Step(Ok(()), rows - {(me.id, other.id), (other.id, me.id)})
  }

  // ---------------------------------------------------------------------------
  // Properties
  // ---------------------------------------------------------------------------

  /** At most one record exists per ordered (owner, target) pair. */
  lemma RecordsUniquePerPair(rows: Rows, k1: Key, k2: Key)
    requires WellKeyed(rows) && k1 in rows && k2 in rows
    requires rows[k1].user.id == rows[k2].user.id && rows[k1].contact.id == rows[k2].contact.id
    ensures k1 == k2
  {
  }

  /** `listContacts` lists a person exactly when the caller owns an ACCEPTED record aimed at
      them, and reports every entry as ACCEPTED. */
  lemma ContactListExact(rows: Rows, me: Account, other: Account)
    requires WellKeyed(rows)
    ensures forall d :: d in ContactsAmong(rows, me, rows.Keys) ==>
              d.status == "ACCEPTED" && (me.id, d.id) in rows && rows[(me.id, d.id)].status == Accepted
    ensures ((me.id, other.id) in rows && rows[(me.id, other.id)].status == Accepted && rows[(me.id, other.id)].contact == other)
              ==> ContactDTO(other.id, other.username, "ACCEPTED") in ContactsAmong(rows, me, rows.Keys)
  {
    var k := (me.id, other.id);
    if k in rows && rows[k].status == Accepted && rows[k].contact == other {
      assert IsContactOf(rows, me, k);
    }
  }

  /** `incomingRequests` lists requester `r` exactly when r owns a PENDING record aimed at
      the caller and the caller owns no record back or r's record is strictly older. */
  lemma IncomingRequestsExact(rows: Rows, me: Account, r: Account)
    requires WellKeyed(rows)
    ensures (exists d :: d in IncomingAmong(rows, me, rows.Keys) && d.id == r.id) <==>
              && (r.id, me.id) in rows
              && rows[(r.id, me.id)].status == Pending
              && ((me.id, r.id) !in rows || rows[(r.id, me.id)].createdAt < rows[(me.id, r.id)].createdAt)
  {
    var k := (r.id, me.id);
    if k in rows && rows[k].status == Pending && ((me.id, r.id) !in rows || rows[k].createdAt < rows[(me.id, r.id)].createdAt) {
      assert IsIncomingFor(rows, me, k);
      assert RequesterView(rows[k]) in IncomingAmong(rows, me, rows.Keys);
    }
  }

  /** Two records created at the same instant hide each other: neither side sees an incoming request. */
  lemma IncomingTieIsDropped(rows: Rows, me: Account, r: Account)
    requires WellKeyed(rows)
    requires (r.id, me.id) in rows && (me.id, r.id) in rows
    requires rows[(r.id, me.id)].createdAt == rows[(me.id, r.id)].createdAt
    ensures forall d :: d in IncomingAmong(rows, me, rows.Keys) ==> d.id != r.id
  {
    IncomingRequestsExact(rows, me, r);
  }

  /** Changing the status of the caller's own record never changes the incoming list. */
  lemma IncomingIgnoresInverseStatus(rows: Rows, me: Account, r: Account, s: ContactStatus)
    requires WellKeyed(rows) && (me.id, r.id) in rows
    ensures IncomingAmong(rows[(me.id, r.id) := rows[(me.id, r.id)].(status := s)], me, rows.Keys)
            == IncomingAmong(rows, me, rows.Keys)
  {
    var rows' := rows[(me.id, r.id) := rows[(me.id, r.id)].(status := s)];
    forall k | k in rows.Keys
      ensures IsIncomingFor(rows', me, k) == IsIncomingFor(rows, me, k)
      ensures IsIncomingFor(rows, me, k) ==> RequesterView(rows'[k]) == RequesterView(rows[k])
    {
    }
  }

  /** A failed lookup or a self-add fails and writes nothing. */
  lemma AddRejectsUnknownOrSelf(rows: Rows, users: seq<Account>, principal: Option<string>, ref: Option<string>, now: int, me: Account)
    requires RequireUser(users, principal) == Ok(me)
    requires ResolveForAdd(users, ref).None? || ResolveForAdd(users, ref) == Some(me)
    ensures AddOutcome(rows, users, principal, ref, now).rows == rows
    ensures AddOutcome(rows, users, principal, ref, now).result ==
              Err(if ResolveForAdd(users, ref).None? then "user not found" else "cannot add yourself")
  {
  }

  /** When the caller already owns a record for the target, `addContact` reports it as it is
      (whatever its status, BLOCKED included) and writes nothing. */
  lemma AddExistingIsUnchanged(rows: Rows, users: seq<Account>, principal: Option<string>, ref: Option<string>, now: int, me: Account, target: Account)
    requires RequireUser(users, principal) == Ok(me) && ResolveForAdd(users, ref) == Some(target)
    requires target.id != me.id && (me.id, target.id) in rows
    ensures AddOutcome(rows, users, principal, ref, now) ==
              Step(Ok(ContactView(rows[(me.id, target.id)])), rows)
  {
  }

  /** Calling `addContact` again with the same arguments, at any later time, repeats the
      first call's answer and writes nothing more. */
  lemma AddIsIdempotent(rows: Rows, users: seq<Account>, principal: Option<string>, ref: Option<string>, now: int, later: int)
    requires WellKeyed(rows)
    requires AddOutcome(rows, users, principal, ref, now).result.Ok?
    ensures var first := AddOutcome(rows, users, principal, ref, now);
            AddOutcome(first.rows, users, principal, ref, later) == first
  {
    var first := AddOutcome(rows, users, principal, ref, now);
    var me := RequireUser(users, principal).value;
    var target := ResolveForAdd(users, ref).value;
    var mine := (me.id, target.id);
    assert mine in first.rows;
    if mine in rows {
      assert first.rows == rows;
    } else {
      assert first.rows[mine].contact == target;
    }
  }

  /** A PENDING request from the target collapses into mutual acceptance; an ACCEPTED one only
      gets the caller's side repaired; a BLOCKED one fails without a write. */
  lemma AddAgainstReverseRecord(rows: Rows, users: seq<Account>, principal: Option<string>, ref: Option<string>, now: int, me: Account, target: Account)
    requires RequireUser(users, principal) == Ok(me) && ResolveForAdd(users, ref) == Some(target)
    requires target.id != me.id && (me.id, target.id) !in rows && (target.id, me.id) in rows
    ensures var s := AddOutcome(rows, users, principal, ref, now);
            var theirs := rows[(target.id, me.id)];
            && (theirs.status == Pending ==>
                  s.result == Ok(ContactDTO(target.id, target.username, "ACCEPTED")) &&
                  s.rows == rows[(me.id, target.id) := Rel(me, target, Accepted, now)]
                                [(target.id, me.id) := theirs.(status := Accepted)])
            && (theirs.status == Accepted ==>
                  s.result == Ok(ContactDTO(target.id, target.username, "ACCEPTED")) &&
                  s.rows == rows[(me.id, target.id) := Rel(me, target, Accepted, now)])
            && (theirs.status == Blocked ==>
                  s.result == Err("cannot add contact: blocked") && s.rows == rows)
  {
  }

  /** Between strangers, `addContact` creates only the caller's PENDING record, never the reverse one. */
  lemma AddBetweenStrangers(rows: Rows, users: seq<Account>, principal: Option<string>, ref: Option<string>, now: int, me: Account, target: Account)
    requires RequireUser(users, principal) == Ok(me) && ResolveForAdd(users, ref) == Some(target)
    requires target.id != me.id && (me.id, target.id) !in rows && (target.id, me.id) !in rows
    ensures var s := AddOutcome(rows, users, principal, ref, now);
            && s.result == Ok(ContactDTO(target.id, target.username, "PENDING"))
            && s.rows == rows[(me.id, target.id) := Rel(me, target, Pending, now)]
            && (target.id, me.id) !in s.rows
  {
  }

  /** `accept` succeeds exactly when the other user's record to the caller exists and is
      PENDING and the caller's own record is not a strictly older PENDING one; then both
      directions are ACCEPTED (the caller's own record whatever its status was, BLOCKED
      included), their creation times are kept, and nothing else changes. */
  lemma AcceptRules(rows: Rows, users: seq<Account>, principal: Option<string>, ref: Option<string>, now: int, me: Account, other: Account)
    requires RequireUser(users, principal) == Ok(me) && ResolveUser(users, ref) == Some(other)
    ensures var s := AcceptOutcome(rows, users, principal, ref, now);
            var incoming := (other.id, me.id);
            var mine := (me.id, other.id);
            && (s.result.Ok? <==>
                  && incoming in rows && rows[incoming].status == Pending
                  && !(mine in rows && rows[mine].status == Pending && rows[mine].createdAt < rows[incoming].createdAt))
            && (s.result.Ok? ==>
                  && s.result.value == ContactDTO(other.id, other.username, "ACCEPTED")
                  && s.rows.Keys == rows.Keys + {mine}
                  && s.rows[incoming] == rows[incoming].(status := Accepted)
                  && s.rows[mine].status == Accepted
                  && (mine in rows ==> s.rows[mine] == rows[mine].(status := Accepted))
                  && (mine !in rows ==> s.rows[mine] == Rel(me, other, Accepted, now))
                  && forall k :: k in rows && k != incoming && k != mine ==> s.rows[k] == rows[k])
  {
  }

  /** The role-inversion guard compares timestamps strictly: a caller whose own PENDING
      record was created at the same instant as the request may still accept it. */
  lemma AcceptGuardTiePasses(rows: Rows, users: seq<Account>, principal: Option<string>, ref: Option<string>, now: int, me: Account, other: Account)
    requires RequireUser(users, principal) == Ok(me) && ResolveUser(users, ref) == Some(other)
    requires (other.id, me.id) in rows && rows[(other.id, me.id)].status == Pending
    requires (me.id, other.id) in rows && rows[(me.id, other.id)].createdAt == rows[(other.id, me.id)].createdAt
    ensures AcceptOutcome(rows, users, principal, ref, now).result.Ok?
  {
  }

  /** `remove` deletes the records in both directions when the other user resolves, is a
      no-op when they do not, and a second call changes nothing. */
  lemma RemoveRules(rows: Rows, users: seq<Account>, principal: Option<string>, ref: Option<string>, me: Account)
    requires RequireUser(users, principal) == Ok(me)
    ensures var s := RemoveOutcome(rows, users, principal, ref);
            && s.result.Ok?
            && (ResolveUser(users, ref).None? ==> s.rows == rows)
            && (ResolveUser(users, ref).Some? ==>
                  var other := ResolveUser(users, ref).value;
                  (me.id, other.id) !in s.rows && (other.id, me.id) !in s.rows &&
                  forall k :: k in rows && k != (me.id, other.id) && k != (other.id, me.id) ==> k in s.rows)
            && RemoveOutcome(s.rows, users, principal, ref) == s
  {
  }

  // ---------------------------------------------------------------------------
  // Scenarios
  // ---------------------------------------------------------------------------

  /** A request followed by the recipient's own `addContact` ends with both directions ACCEPTED. */
  lemma MutualAddCollapses(rows: Rows, users: seq<Account>, a: Account, b: Account, t1: int, t2: int)
    requires WellKeyed(rows) && a.id != b.id
    requires RequireUser(users, Some(a.username)) == Ok(a) && RequireUser(users, Some(b.username)) == Ok(b)
    requires ResolveForAdd(users, Some(b.username)) == Some(b) && ResolveForAdd(users, Some(a.username)) == Some(a)
    requires (a.id, b.id) !in rows && (b.id, a.id) !in rows
    ensures var s1 := AddOutcome(rows, users, Some(a.username), Some(b.username), t1);
            var s2 := AddOutcome(s1.rows, users, Some(b.username), Some(a.username), t2);
            && s1.result == Ok(ContactDTO(b.id, b.username, "PENDING"))
            && s2.result == Ok(ContactDTO(a.id, a.username, "ACCEPTED"))
            && s2.rows[(a.id, b.id)].status == Accepted
            && s2.rows[(b.id, a.id)].status == Accepted
  {
  }

  /** After A requests B, A cannot accept its own request, and B can; then both are ACCEPTED. */
  lemma OnlyRecipientAccepts(rows: Rows, users: seq<Account>, a: Account, b: Account, t1: int, t2: int)
    requires WellKeyed(rows) && a.id != b.id
    requires RequireUser(users, Some(a.username)) == Ok(a) && RequireUser(users, Some(b.username)) == Ok(b)
    requires ResolveForAdd(users, Some(b.username)) == Some(b)
    requires ResolveUser(users, Some(a.username)) == Some(a) && ResolveUser(users, Some(b.username)) == Some(b)
    requires (a.id, b.id) !in rows && (b.id, a.id) !in rows
    ensures var s1 := AddOutcome(rows, users, Some(a.username), Some(b.username), t1);
            && AcceptOutcome(s1.rows, users, Some(a.username), Some(b.username), t2).result == Err("no request found")
            && var s2 := AcceptOutcome(s1.rows, users, Some(b.username), Some(a.username), t2);
               && s2.result == Ok(ContactDTO(a.id, a.username, "ACCEPTED"))
               && s2.rows[(a.id, b.id)].status == Accepted
               && s2.rows[(b.id, a.id)].status == Accepted
  {
  }
}
