/** The `messages` entity: a chat message row with its temporary legacy copy of the text,
    which the persistence hook keeps in step with the current column before every write. */
module Messages {
  import opened Results

  /** The values of a message's columns; `None` stands for Java's `null`. Times are epoch
      milliseconds and the room and sender are referred to by id. */
  datatype MessageRow = MessageRow(
    id: Option<int>,
    roomId: Option<int>,
    senderUser: Option<int>,
    senderUsername: Option<string>,
    content: Option<string>,
    contentLegacy: Option<string>,
    createdAt: int)

  /** The text column after the hook: an existing text is kept; a missing one is taken from
      the legacy column. */
  function SyncedContent(content: Option<string>, legacy: Option<string>): (r: Option<string>)
    ensures content.Some? ==> r == content
    ensures content.None? ==> r == legacy
    ensures r.None? <==> content.None? && legacy.None?
  {
    if content.None? && legacy.Some? then legacy else content
  }

  /** The row after the hook: both text columns hold the synchronised text and nothing else
      differs. */
  function Synced(row: MessageRow): (r: MessageRow)
    ensures r.contentLegacy == r.content
    ensures r.content == SyncedContent(row.content, row.contentLegacy)
    ensures r.(content := row.content, contentLegacy := row.contentLegacy) == row
  {
    var text := SyncedContent(row.content, row.contentLegacy);
    row.(content := text, contentLegacy := text)
  }

  /** Running the hook a second time changes nothing (it runs before every insert and every
      update of the same row). */
  lemma SyncedIdempotent(row: MessageRow)
    ensures Synced(Synced(row)) == Synced(row)
  {
    var once := Synced(row);
    assert SyncedContent(once.content, once.contentLegacy) == once.content;
  }

  /** A row that already holds a text gets that text in both columns, whatever the legacy
      column held before. */
  lemma SyncedKeepsText(row: MessageRow)
    requires row.content.Some?
    ensures Synced(row).content == row.content && Synced(row).contentLegacy == row.content
  {
  }

  class Message {
    var id: Option<int>
    var room: Option<int>
    var senderUser: Option<int>
    var senderUsername: Option<string>
    var content: Option<string>
    var contentLegacy: Option<string>
    var createdAt: int

    /** `new Message()`: every column `null` except `createdAt`, which is the current time. */
    constructor (now: int)
      ensures Snapshot() == MessageRow(None, None, None, None, None, None, now)
    {
      id := None;
      room := None;
      senderUser := None;
      senderUsername := None;
      content := None;
      contentLegacy := None;
      createdAt := now;
    }

    function Snapshot(): MessageRow
      reads this
    {
      MessageRow(id, room, senderUser, senderUsername, content, contentLegacy, createdAt)
    }

    /** `syncLegacyColumns()`, the pre-persist and pre-update hook. */
    method SyncLegacyColumns()
      modifies this
      ensures Snapshot() == Synced(old(Snapshot()))
    {
      if content.None? && contentLegacy.Some? {
        content := contentLegacy;
      }
      contentLegacy := content;
    }
  }
}
