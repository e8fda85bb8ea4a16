/** The chat service: creating rooms on first use, storing a posted message with its
    defaults, and serving a page of a room's history oldest-first. */
module Chat {
  import opened Results
  import opened JavaStrings
  import opened Accounts
  import opened Messages

  /** A row of `chat_rooms`; the id is the one in the URL, not generated. */
  datatype ChatRoom = ChatRoom(id: int, name: string)

  /** The wire form of a message; `ts` is a primitive `long`, so it is never missing. */
  datatype MessageDTO = MessageDTO(roomId: Option<int>, senderId: Option<string>, content: Option<string>, ts: int)

  const DEFAULT_PAGE: int := 50
  const MAX_PAGE: int := 200

  // ---------------------------------------------------------------------------
  // ensureRoom
  // ---------------------------------------------------------------------------

  /** The room `ensureRoom(roomId)` returns and the room table afterwards: the stored room if
      there is one, otherwise a new room named `Room <id>` that is added to the table. */
  function EnsuredRoom(rooms: map<int, ChatRoom>, roomId: int): (r: (ChatRoom, map<int, ChatRoom>))
    ensures r.1.Keys == rooms.Keys + {roomId}
    ensures forall k :: k in rooms ==> r.1[k] == rooms[k]
    ensures r.1[roomId] == r.0
    ensures roomId !in rooms ==> r.0 == ChatRoom(roomId, "Room " + LongToString(roomId))
  {
    if roomId in rooms then (rooms[roomId], rooms)
    else
      var room := ChatRoom(roomId, "Room " + LongToString(roomId));
      (room, rooms[roomId := room])
  }

  /** Every room is stored under its own id. */
  ghost predicate RoomsKeyed(rooms: map<int, ChatRoom>) {
    forall k :: k in rooms ==> rooms[k].id == k
  }

  /** `ensureRoom` keeps rooms stored under their ids, hands back the room with the asked id,
      and asking twice is asking once. */
  lemma EnsuredRoomStable(rooms: map<int, ChatRoom>, roomId: int)
    requires RoomsKeyed(rooms)
    ensures var (room, after) := EnsuredRoom(rooms, roomId);
            && RoomsKeyed(after) && room.id == roomId
            && EnsuredRoom(after, roomId) == (room, after)
  {
  }

  // ---------------------------------------------------------------------------
  // saveMessage
  // ---------------------------------------------------------------------------

  /** The stored sender name: the authenticated principal, else the name the client sent,
      else `anonymous`. */
  function SenderName(dto: MessageDTO, principal: Option<string>): (name: string)
    ensures principal.Some? ==> name == principal.value
    ensures principal.None? && dto.senderId.Some? ==> name == dto.senderId.value
    ensures principal.None? && dto.senderId.None? ==> name == "anonymous"
  {
    if principal.Some? then principal.value
    else if dto.senderId.Some? then dto.senderId.value
    else "anonymous"
  }

  /** The stored text: the client's text, or the empty string when it sent none. */
  function SavedText(dto: MessageDTO): (text: string)
    ensures dto.content.Some? ==> text == dto.content.value
    ensures dto.content.None? ==> text == ""
  {
    if dto.content.None? then "" else dto.content.value
  }

  /** The stored time: the client's timestamp when it is positive, else the server clock. */
  function SavedTime(dto: MessageDTO, now: int): (t: int)
    ensures dto.ts > 0 ==> t == dto.ts
    ensures dto.ts <= 0 ==> t == now
    ensures t > 0 || t == now
  {
    if dto.ts > 0 then dto.ts else now
  }

  /** The account linked to the message: the user whose name is the sender name, if any. */
  function SenderAccount(users: seq<Account>, name: string): (r: Option<int>)
    ensures r.Some? <==> exists a :: a in users && a.username == name
    ensures r.Some? ==> exists a :: a in users && a.username == name && a.id == r.value
    ensures DirectoryValid(users) ==> forall a :: a in users && a.username == name ==> r == Some(a.id)
  {
    match FindByUsername(users, name)
    case None => None
    case Some(acc) => Some(acc.id)
  }

  // ---------------------------------------------------------------------------
  // getHistory
  // ---------------------------------------------------------------------------

  /** The page size: the requested size when it lies in 1..200, else 50. */
  function HistoryLimit(size: Option<int>): (limit: int)
    ensures 1 <= limit <= MAX_PAGE
    ensures size.Some? && 0 < size.value <= MAX_PAGE ==> limit == size.value
    ensures !(size.Some? && 0 < size.value <= MAX_PAGE) ==> limit == DEFAULT_PAGE
  {
    if size.None? || size.value <= 0 || size.value > MAX_PAGE then DEFAULT_PAGE else size.value
  }

  /** The `createdAt < before` bound of the query: only a positive `beforeTs` sets one. */
  function BeforeBound(beforeTs: Option<int>): (b: Option<int>)
    ensures b.Some? <==> beforeTs.Some? && beforeTs.value > 0
    ensures b.Some? ==> b == beforeTs
  {
    if beforeTs.Some? && beforeTs.value > 0 then beforeTs else None
  }

  /** The rows the query draws from: the room's messages, older than the bound if any. */
  predicate InWindow(row: MessageRow, roomId: int, bound: Option<int>) {
    row.roomId == Some(roomId) && (bound.Some? ==> row.createdAt < bound.value)
  }

  /** What the repository's newest-first query returns for a page of `limit` rows: rows of
      the window, newest first, at most `limit` of them, all of the window when fewer, and
      none older than a row it left out. */
  ghost predicate IsNewestFirstPage(page: seq<MessageRow>, rows: seq<MessageRow>, roomId: int, bound: Option<int>, limit: int) {
    && |page| <= limit
    && (forall i :: 0 <= i < |page| ==> page[i] in rows && InWindow(page[i], roomId, bound))
    && (forall i, j :: 0 <= i < j < |page| ==> page[i].createdAt >= page[j].createdAt)
    && (forall r :: r in rows && InWindow(r, roomId, bound) && r !in page ==>
          |page| == limit && forall i :: 0 <= i < |page| ==> r.createdAt <= page[i].createdAt)
  }

  function Reversed<T>(s: seq<T>): (r: seq<T>)
    ensures |r| == |s|
    ensures forall i :: 0 <= i < |s| ==> r[i] == s[|s| - 1 - i]
  {
    if s == [] then [] else Reversed(s[1..]) + [s[0]]
  }

  /** Reversing a newest-first list gives an oldest-first list. */
  lemma ReversedAscending(page: seq<MessageRow>)
    requires forall i, j :: 0 <= i < j < |page| ==> page[i].createdAt >= page[j].createdAt
    ensures var r := Reversed(page); forall i, j :: 0 <= i < j < |r| ==> r[i].createdAt <= r[j].createdAt
  {
  }

  /** `toDto`: room id, sender name, text and time in epoch milliseconds. */
  function ToDto(row: MessageRow): MessageDTO {
    MessageDTO(row.roomId, row.senderUsername, row.content, row.createdAt)
  }

  function Dtos(rows: seq<MessageRow>): (r: seq<MessageDTO>)
    ensures |r| == |rows|
    ensures forall i :: 0 <= i < |rows| ==> r[i] == ToDto(rows[i])
  {
    if rows == [] then [] else [ToDto(rows[0])] + Dtos(rows[1..])
  }

  /** `Collections.reverse(list)` on the page, in place. */
  method Reverse(a: array<MessageRow>)
    modifies a
    ensures a[..] == Reversed(old(a[..]))
  {
    var i, j := 0, a.Length - 1;
    while i < j
      invariant 0 <= i <= a.Length && i + j == a.Length - 1
      invariant forall k :: 0 <= k < i ==> a[k] == old(a[a.Length - 1 - k])
      invariant forall k :: j < k < a.Length ==> a[k] == old(a[a.Length - 1 - k])
      invariant forall k :: i <= k <= j ==> a[k] == old(a[k])
    {
      a[i], a[j] := a[j], a[i];
      i, j := i + 1, j - 1;
    }
  }

  /** The message `saveMessage` builds through the setters, after the persistence hook has
      run and before the table assigns its id. */
  method NewMessage(roomId: int, sender: Option<int>, name: string, dto: MessageDTO, now: int) returns (m: Message)
    ensures fresh(m)
    ensures var text := Some(SavedText(dto));
            m.Snapshot() == MessageRow(None, Some(roomId), sender, Some(name), text, text, SavedTime(dto, now))
  {
    m := new Message(now);
    m.room := Some(roomId);
    m.senderUser := sender;
    m.senderUsername := Some(name);
    m.content := Some(if dto.content.None? then "" else dto.content.value);
    m.createdAt := if dto.ts > 0 then dto.ts else now;
    m.SyncLegacyColumns();
  }

  class ChatService {
    var rooms: map<int, ChatRoom>
    /** The `messages` table, in insertion order. */
    var rows: seq<MessageRow>
    /** The identity column's next value. */
    var nextId: int
    /** The `users` table, read for the sender link. */
    const users: seq<Account>

    ghost predicate Valid()
      reads this
    {
      RoomsKeyed(rooms) && forall i :: 0 <= i < |rows| ==> rows[i].id.Some? && rows[i].id.value < nextId
    }

    constructor (users: seq<Account>)
      ensures Valid() && rooms == map[] && rows == [] && this.users == users
    {
      rooms := map[];
      rows := [];
      nextId := 1;
      this.users := users;
    }

    /** `ensureRoom(roomId)`. */
    method EnsureRoom(roomId: int) returns (room: ChatRoom)
      requires Valid()
      modifies this
      ensures Valid() && rows == old(rows) && nextId == old(nextId)
      ensures (room, rooms) == EnsuredRoom(old(rooms), roomId)
    {
      if roomId in rooms {
        room := rooms[roomId];
      } else {
        room := ChatRoom(roomId, "Room " + LongToString(roomId));
        rooms := rooms[roomId := room];
      }
    }

    /** `saveMessage(roomId, dto, principal)` at clock reading `now`: the room is ensured, a
        message is built with its defaults, the persistence hook runs, and the row is stored
        under the next id. */
    method SaveMessage(roomId: int, dto: MessageDTO, principal: Option<string>, now: int) returns (m: Message)
      requires Valid()
      modifies this
      ensures Valid() && fresh(m) && nextId == old(nextId) + 1
      ensures rooms == EnsuredRoom(old(rooms), roomId).1
      ensures var name := SenderName(dto, principal);
              var text := Some(SavedText(dto));
              m.Snapshot() == MessageRow(Some(old(nextId)), Some(roomId), SenderAccount(users, name), Some(name),
                                         text, text, SavedTime(dto, now))
      ensures rows == old(rows) + [m.Snapshot()]
    {
      var room := EnsureRoom(roomId);
      EnsuredRoomStable(old(rooms), roomId);
      var username := if principal.Some? then principal.value
                      else if dto.senderId.Some? then dto.senderId.value
                      else "anonymous";
      m := NewMessage(room.id, SenderAccount(users, username), username, dto, now);
      m.id := Some(nextId);
      rows := rows + [m.Snapshot()];
      nextId := nextId + 1;
    }

    /** `getHistory(roomId, size, beforeTs)`. The repository's answer to the newest-first query
        is `page`; the result is that page turned oldest-first, so it holds at most `limit`
        messages of the room, older than `beforeTs` when that is positive, in ascending time. */
    method GetHistory(roomId: int, size: Option<int>, beforeTs: Option<int>, page: seq<MessageRow>) returns (history: seq<MessageDTO>)
      requires IsNewestFirstPage(page, rows, roomId, BeforeBound(beforeTs), HistoryLimit(size))
      ensures history == Dtos(Reversed(page))
      ensures |history| <= HistoryLimit(size)
      ensures forall i :: 0 <= i < |history| ==>
                history[i].roomId == Some(roomId) && (beforeTs.Some? && beforeTs.value > 0 ==> history[i].ts < beforeTs.value)
      ensures forall i, j :: 0 <= i < j < |history| ==> history[i].ts <= history[j].ts
    {
      var a := new MessageRow[|page|](i requires 0 <= i < |page| => page[i]);
      assert a[..] == page;
      Reverse(a);
      ReversedAscending(page);
      history := Dtos(a[..]);
    }
  }

  /** A saved message falls in its room's history window exactly when no `beforeTs` bound is
      set or its stored time is older than the bound. */
  lemma SavedMessageInWindow(row: MessageRow, roomId: int, beforeTs: Option<int>)
    requires row.roomId == Some(roomId)
    ensures InWindow(row, roomId, BeforeBound(beforeTs)) <==>
              beforeTs.None? || beforeTs.value <= 0 || row.createdAt < beforeTs.value
  {
  }
}
