/** `ContactService`: the contact store as a map from (owner id, target id) to the
    `ContactRelation` objects the service fetches, updates in place and saves. Every
    command is proved to leave the table exactly as `ContactRules` says, and every
    query to return exactly the set `ContactRules` describes, each entry once. */
module Contacts {
  import opened Results
  import opened Accounts
  import opened ContactRelations
  import opened ContactRules

  class ContactService {
    /** The `contacts` table: at most one object per ordered (owner, target) pair. */
    var contacts: map<Key, ContactRelation>
    /** The `users` table, read-only here. */
    var users: seq<Account>

    /** The table's contents as values. */
    ghost function Rows(): Rows
      reads this, contacts.Values
    {
      map k | k in contacts :: contacts[k].Snapshot()
    }

    ghost predicate Valid()
      reads this, contacts.Values
    {
      WellKeyed(Rows())
    }

    constructor (users: seq<Account>)
      ensures Valid() && this.users == users && Rows() == map[]
    {
      this.users := users;
      this.contacts := map[];
    }

    /** Two keys never share one object, so updating one record leaves the others alone. */
    lemma NoSharedRecords()
      requires Valid()
      ensures forall k1, k2 :: k1 in contacts && k2 in contacts && k1 != k2 ==> contacts[k1] != contacts[k2]
    {
      forall k1, k2 | k1 in contacts && k2 in contacts && contacts[k1] == contacts[k2]
        ensures k1 == k2
      {
        assert Rows()[k1] == Rows()[k2];
      }
    }

    /** `listContacts(principal)`: every record the caller owns with status ACCEPTED, once each. */
    method ListContacts(principal: Option<string>) returns (r: Result<seq<ContactDTO>>)
      requires Valid()
      ensures r.Err? <==> ContactList(Rows(), users, principal).Err?
      ensures r.Err? ==> r.error == ContactList(Rows(), users, principal).error
      ensures r.Ok? ==> (set d | d in r.value) == ContactList(Rows(), users, principal).value
      ensures r.Ok? ==> forall i, j :: 0 <= i < j < |r.value| ==> r.value[i] != r.value[j]
    {
      var caller := RequireUser(users, principal);
      if caller.Err? {
        return Err(caller.error);
      }
      var me := caller.value;
      var out: seq<ContactDTO> := [];
      var todo := contacts.Keys;
      while todo != {}
        invariant todo <= contacts.Keys
        invariant (set d | d in out) == ContactsAmong(Rows(), me, contacts.Keys - todo)
        invariant forall i :: 0 <= i < |out| ==> (me.id, out[i].id) in contacts.Keys - todo
        invariant forall i, j :: 0 <= i < j < |out| ==> out[i] != out[j]
        decreases todo
      {
        var k :| k in todo;
        var c := contacts[k];
        ghost var done := contacts.Keys - todo;
        if c.user.id == me.id && c.status == Accepted {
          out := out + [ContactDTO(c.contact.id, c.contact.username, c.status.Name())];
        }
        ContactsAmongStep(Rows(), me, done, k);
        todo := todo - {k};
        assert contacts.Keys - todo == done + {k};
      }
      assert contacts.Keys - todo == contacts.Keys;
      return Ok(out);
    }

    /** `incomingRequests(principal)`: every PENDING record aimed at the caller that passes the
        inverse-record filter, reported by its owner, once each. */
    method IncomingRequests(principal: Option<string>) returns (r: Result<seq<ContactDTO>>)
      requires Valid()
      ensures r.Err? <==> IncomingList(Rows(), users, principal).Err?
      ensures r.Err? ==> r.error == IncomingList(Rows(), users, principal).error
      ensures r.Ok? ==> (set d | d in r.value) == IncomingList(Rows(), users, principal).value
      ensures r.Ok? ==> forall i, j :: 0 <= i < j < |r.value| ==> r.value[i] != r.value[j]
    {
      var caller := RequireUser(users, principal);
      if caller.Err? {
        return Err(caller.error);
      }
      var me := caller.value;
      var out: seq<ContactDTO> := [];
      var todo := contacts.Keys;
      while todo != {}
        invariant todo <= contacts.Keys
        invariant (set d | d in out) == IncomingAmong(Rows(), me, contacts.Keys - todo)
        invariant forall i :: 0 <= i < |out| ==> (out[i].id, me.id) in contacts.Keys - todo
        invariant forall i, j :: 0 <= i < j < |out| ==> out[i] != out[j]
        decreases todo
      {
        var k :| k in todo;
        var c := contacts[k];
        ghost var done := contacts.Keys - todo;
        if c.contact.id == me.id && c.status == Pending {
          var inverse := (me.id, c.user.id);
          if inverse !in contacts || c.createdAt < contacts[inverse].createdAt {
            out := out + [ContactDTO(c.user.id, c.user.username, c.status.Name())];
          }
        }
        IncomingAmongStep(Rows(), me, done, k);
        todo := todo - {k};
        assert contacts.Keys - todo == done + {k};
      }
      assert contacts.Keys - todo == contacts.Keys;
      return Ok(out);
    }

    /** `contacts.save(rel)` of a record not yet in the table. */
    method Insert(k: Key, rel: ContactRelation)
      requires Valid() && k !in contacts && rel !in contacts.Values
      requires k == (rel.user.id, rel.contact.id) && k.0 != k.1
      modifies this
      ensures Valid() && users == old(users) && contacts == old(contacts)[k := rel]
      ensures Rows() == old(Rows())[k := rel.Snapshot()]
    {
      NewKeyKeepsKeys(Rows(), k, rel.Snapshot());
      contacts := contacts[k := rel];
    }

    /** `rel.setStatus(status)` then `contacts.save(rel)` for the record stored under `k`. */
    method SetStatusAt(k: Key, status: ContactStatus)
      requires Valid() && k in contacts
      modifies contacts[k]
      ensures Valid() && contacts == old(contacts)
      ensures Rows() == old(Rows())[k := old(Rows())[k].(status := status)]
    {
      NoSharedRecords();
      StatusChangeKeepsKeys(Rows(), k, status);
      contacts[k].SetStatus(status);
    }

    /** `addContact(usernameOrId, principal)` at clock reading `now`. */
    method AddContact(usernameOrId: Option<string>, principal: Option<string>, now: int) returns (r: Result<ContactDTO>)
      requires Valid()
      modifies this, contacts.Values
      ensures Valid() && users == old(users)
      ensures Step(r, Rows()) == AddOutcome(old(Rows()), users, principal, usernameOrId, now)
    {
      var caller := RequireUser(users, principal);
      if caller.Err? {
        return Err(caller.error);
      }
      var me := caller.value;
      var found := ResolveForAdd(users, usernameOrId);
      if found.None? {
        return Err("user not found");
      }
      r := AddResolved(found.value, me, now);
    }

    /** The rest of `addContact` once the caller `me` and the `target` are known. */
    method AddResolved(target: Account, me: Account, now: int) returns (r: Result<ContactDTO>)
      requires Valid()
      modifies this, contacts.Values
      ensures Valid() && users == old(users)
      ensures Step(r, Rows()) == AddTarget(old(Rows()), me, target, now)
    {
      if target.id == me.id {
        return Err("cannot add yourself");
      }
      var mineKey := (me.id, target.id);
      if mineKey in contacts {
        var existing := contacts[mineKey];
        return Ok(ContactDTO(existing.contact.id, existing.contact.username, existing.status.Name()));
      }
      if (target.id, me.id) in contacts {
        r := AnswerReverse(target, me, now);
        return;
      }
      var created := new ContactRelation(me, target, Some(Pending), now);
      Insert(mineKey, created);
      return Ok(ContactDTO(target.id, target.username, created.status.Name()));
    }

    /** `addContact` when only the record from `target` to `me` exists: a pending request is
        answered, an accepted one is mirrored, a blocked one refuses. */
    method AnswerReverse(target: Account, me: Account, now: int) returns (r: Result<ContactDTO>)
      requires Valid() && target.id != me.id
      requires (me.id, target.id) !in contacts && (target.id, me.id) in contacts
      modifies this, contacts.Values
      ensures Valid() && users == old(users)
      ensures Step(r, Rows()) == AddTarget(old(Rows()), me, target, now)
    {
      var mineKey, theirsKey := (me.id, target.id), (target.id, me.id);
      var incoming := contacts[theirsKey];
      if incoming.status == Pending {
        var mine := new ContactRelation(me, target, Some(Accepted), now);
        Insert(mineKey, mine);
        SetStatusAt(theirsKey, Accepted);
        return Ok(ContactDTO(target.id, target.username, Accepted.Name()));
      } else if incoming.status == Accepted {
        var mine := new ContactRelation(me, target, Some(Accepted), now);
        Insert(mineKey, mine);
        return Ok(ContactDTO(target.id, target.username, Accepted.Name()));
      } else {
        return Err("cannot add contact: blocked");
      }
    }

    /** `accept(usernameOrId, principal)` at clock reading `now`. */
    method Accept(usernameOrId: Option<string>, principal: Option<string>, now: int) returns (r: Result<ContactDTO>)
      requires Valid()
      modifies this, contacts.Values
      ensures Valid() && users == old(users)
      ensures Step(r, Rows()) == AcceptOutcome(old(Rows()), users, principal, usernameOrId, now)
    {
      var caller := RequireUser(users, principal);
      if caller.Err? {
        return Err(caller.error);
      }
      var me := caller.value;
      var found := ResolveUser(users, usernameOrId);
      if found.None? {
        return Err("user not found");
      }
      r := AcceptResolved(found.value, me, now);
    }

    /** The rest of `accept` once the caller `me` and the requester `other` are known. */
    method AcceptResolved(other: Account, me: Account, now: int) returns (r: Result<ContactDTO>)
      requires Valid()
      modifies this, contacts.Values
      ensures Valid() && users == old(users)
      ensures Step(r, Rows()) == AcceptFrom(old(Rows()), me, other, now)
    {
      var incomingKey := (other.id, me.id);
      if incomingKey !in contacts {
        return Err("no request found");
      }
      var incoming := contacts[incomingKey];
      if incoming.status != Pending {
        return Err("no pending request to accept");
      }
      var mineKey := (me.id, other.id);
      if mineKey in contacts && contacts[mineKey].status == Pending && contacts[mineKey].createdAt < incoming.createdAt {
        return Err("only the recipient can accept this request");
      }
      AcceptBoth(me, other, now);
      return Ok(ContactDTO(other.id, other.username, "ACCEPTED"));
    }

    /** Sets the request `other` sent to `me` and the record `me` owns towards `other` (created
        PENDING at `now` when missing) to ACCEPTED, and saves both. */
    method AcceptBoth(me: Account, other: Account, now: int)
      requires Valid() && (other.id, me.id) in contacts
      modifies this, contacts.Values
      ensures Valid() && users == old(users)
      ensures var myRecord := if (me.id, other.id) in old(Rows()) then old(Rows())[(me.id, other.id)] else Rel(me, other, Pending, now);
              Rows() == old(Rows())[(other.id, me.id) := old(Rows())[(other.id, me.id)].(status := Accepted)]
                                   [(me.id, other.id) := myRecord.(status := Accepted)]
    {
      var incomingKey, mineKey := (other.id, me.id), (me.id, other.id);
      assert incomingKey in Rows();
      if mineKey in contacts {
        SetStatusAt(incomingKey, Accepted);
        SetStatusAt(mineKey, Accepted);
      } else {
        SetStatusAt(incomingKey, Accepted);
        InsertAccepted(me, other, now);
      }
    }

    /** `new ContactRelation(me, other, PENDING)`, set to ACCEPTED and saved. */
    method InsertAccepted(me: Account, other: Account, now: int)
      requires Valid() && (me.id, other.id) !in contacts && me.id != other.id
      modifies this
      ensures Valid() && users == old(users)
      ensures Rows() == old(Rows())[(me.id, other.id) := Rel(me, other, Accepted, now)]
    {
      var mine := new ContactRelation(me, other, Some(Pending), now);
      mine.SetStatus(Accepted);
      Insert((me.id, other.id), mine);
    }

    /** `remove(usernameOrId, principal)`: deletes the records in both directions. */
    method Remove(usernameOrId: Option<string>, principal: Option<string>) returns (r: Result<()>)
      requires Valid()
      modifies this
      ensures Valid() && users == old(users)
      ensures Step(r, Rows()) == RemoveOutcome(old(Rows()), users, principal, usernameOrId)
    {
      ghost var before := Rows();
      var caller := RequireUser(users, principal);
      if caller.Err? {
        return Err(caller.error);
      }
      var me := caller.value;
      var found := ResolveUser(users, usernameOrId);
      if found.None? {
        return Ok(());
      }
      var other := found.value;
      contacts := contacts - {(me.id, other.id)};
      contacts := contacts - {(other.id, me.id)};
      assert Rows() == before - {(me.id, other.id), (other.id, me.id)};
      return Ok(());
    }
  }

  lemma NewKeyKeepsKeys(rows: Rows, k: Key, r: Rel)
    requires WellKeyed(rows) && k == (r.user.id, r.contact.id) && k.0 != k.1
    ensures WellKeyed(rows[k := r])
  {
  }

  lemma StatusChangeKeepsKeys(rows: Rows, k: Key, status: ContactStatus)
    requires WellKeyed(rows) && k in rows
    ensures WellKeyed(rows[k := rows[k].(status := status)])
  {
  }

  /** Taking one more key into account adds at most that key's view to `ContactsAmong`. */
  lemma ContactsAmongStep(rows: Rows, me: Account, done: set<Key>, k: Key)
    ensures ContactsAmong(rows, me, done + {k}) ==
              ContactsAmong(rows, me, done) + (if IsContactOf(rows, me, k) then {ContactView(rows[k])} else {})
  {
  }

  lemma IncomingAmongStep(rows: Rows, me: Account, done: set<Key>, k: Key)
    ensures IncomingAmong(rows, me, done + {k}) ==
              IncomingAmong(rows, me, done) + (if IsIncomingFor(rows, me, k) then {RequesterView(rows[k])} else {})
  {
  }
}
