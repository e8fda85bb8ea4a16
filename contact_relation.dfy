/** The `contacts` table's entity: one directed relationship record from an owner
    (`user`) to the other person (`contact`), with a status and a creation time. */
module ContactRelations {
  import opened Results
  import opened Accounts

  datatype ContactStatus = Pending | Accepted | Blocked {
    /** `status.name()`, as the service reports it to clients. */
    function Name(): string {
      match this
      case Pending => "PENDING"
      case Accepted => "ACCEPTED"
      case Blocked => "BLOCKED"
    }
  }

  /** The value a record holds at one moment (one row of the table). */
  datatype Rel = Rel(user: Account, contact: Account, status: ContactStatus, createdAt: int)

  class ContactRelation {
    var user: Account
    var contact: Account
    var status: ContactStatus
    var createdAt: int

    /** `new ContactRelation(user, contact, status)`; `createdAt` is the clock reading `now`
        taken by the field initialiser. A `null` status falls back to the field default. */
    constructor (user: Account, contact: Account, status: Option<ContactStatus>, now: int)
      ensures this.user == user && this.contact == contact
      ensures status.None? ==> this.status == Pending
      ensures status.Some? ==> this.status == status.value
      ensures createdAt == now
    {
      this.user := user;
      this.contact := contact;
      this.status := if status.None? then Pending else status.value;
      this.createdAt := now;
    }

    /** `setStatus(status)`: only the status changes. */
    method SetStatus(status: ContactStatus)
      modifies this
      ensures this.status == status
      ensures user == old(user) && contact == old(contact) && createdAt == old(createdAt)
    {
      this.status := status;
    }

    function Snapshot(): Rel
      reads this
    {
      Rel(user, contact, status, createdAt)
    }
  }
}
