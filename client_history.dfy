/** The browser client's message list: merging a fetched history page into the messages
    already shown, appending live broadcasts, and the guard in front of sending a draft. */
module ClientHistory {
  import opened Results
  import opened JavaStrings

  /** A message as the client holds it (`ts` in epoch milliseconds). */
  datatype ChatMessage = ChatMessage(roomId: int, senderId: string, content: string, ts: int)

  /** The only room the client joins. */
  const ROOM_ID: int := 1

  // ---------------------------------------------------------------------------
  // History merge
  // ---------------------------------------------------------------------------

  /** The de-duplication key `${ts}|${senderId}|${content}`. */
  function Key(m: ChatMessage): string {
    LongToString(m.ts) + "|" + m.senderId + "|" + m.content
  }

  /** The keys of the messages on screen (`seen`). */
  function KeySet(prev: seq<ChatMessage>): (keys: set<string>)
    ensures forall m :: m in prev ==> Key(m) in keys
  {
    set m | m in prev :: Key(m)
  }

  /** `seen` holds the keys of the messages on screen and nothing else. */
  lemma KeySetExact(prev: seq<ChatMessage>, k: string)
    ensures k in KeySet(prev) <==> exists m :: m in prev && Key(m) == k
  {
    if exists m :: m in prev && Key(m) == k {
      var m :| m in prev && Key(m) == k;
      assert Key(m) in KeySet(prev);
    }
  }

  /** The fetched messages whose key was not on screen, in fetched order. `seen` is computed
      once, before the loop, so two fetched messages with the same new key are both kept. */
  function Unseen(seen: set<string>, incoming: seq<ChatMessage>): (r: seq<ChatMessage>)
    ensures |r| <= |incoming|
    ensures forall m :: m in r ==> m in incoming && Key(m) !in seen
    decreases |incoming|
  {
    if incoming == [] then []
    else
      var last := incoming[|incoming| - 1];
      Unseen(seen, incoming[..|incoming| - 1]) + (if Key(last) in seen then [] else [last])
  }

  /** Exactly the fetched messages with an unseen key are added, each as often as it was
      fetched. */
  lemma {:induction false} UnseenCounts(seen: set<string>, incoming: seq<ChatMessage>)
    ensures forall m :: multiset(Unseen(seen, incoming))[m] == if Key(m) in seen then 0 else multiset(incoming)[m]
    decreases |incoming|
  {
    if incoming != [] {
      var front, last := incoming[..|incoming| - 1], incoming[|incoming| - 1];
      assert incoming == front + [last];
      UnseenCounts(seen, front);
    }
  }

  /** One turn of the merge loop: pushing `incoming[i]` when its key is unseen extends the
      merge by exactly one more fetched message. */
  lemma UnseenStep(prev: seq<ChatMessage>, seen: set<string>, incoming: seq<ChatMessage>, i: int)
    requires 0 <= i < |incoming|
    ensures var merged := prev + Unseen(seen, incoming[..i]);
            (if Key(incoming[i]) in seen then merged else merged + [incoming[i]])
              == prev + Unseen(seen, incoming[..i + 1])
  {
    assert incoming[..i + 1][..i] == incoming[..i];
    var added := Unseen(seen, incoming[..i]);
    assert Unseen(seen, incoming[..i + 1]) == added + (if Key(incoming[i]) in seen then [] else [incoming[i]]);
    if Key(incoming[i]) !in seen {
      assert prev + (added + [incoming[i]]) == prev + added + [incoming[i]];
    }
  }

  /** The merge as the loop leaves it before sorting: everything on screen, in order, then
      the unseen fetched messages. */
  method CollectUnseen(prev: seq<ChatMessage>, incoming: seq<ChatMessage>) returns (merged: seq<ChatMessage>)
    ensures merged == prev + Unseen(KeySet(prev), incoming)
  {
    var seen := KeySet(prev);
    merged := prev;
    for i := 0 to |incoming|
      invariant merged == prev + Unseen(seen, incoming[..i])
    {
      var m := incoming[i];
      UnseenStep(prev, seen, incoming, i);
      if Key(m) !in seen {
        merged := merged + [m];
      }
    }
    assert incoming[..|incoming|] == incoming;
  }

  predicate SortedByTs(s: seq<ChatMessage>) {
    forall i, j :: 0 <= i < j < |s| ==> s[i].ts <= s[j].ts
  }

  lemma SortedCons(x: ChatMessage, rest: seq<ChatMessage>)
    requires SortedByTs(rest) && (rest == [] || x.ts <= rest[0].ts)
    ensures SortedByTs([x] + rest)
  {
    var r := [x] + rest;
    forall i, j | 0 <= i < j < |r|
      ensures r[i].ts <= r[j].ts
    {
      if i == 0 && j > 1 {
        assert r[1] == rest[0] && r[j] == rest[j - 1];
      }
    }
  }

  /** Inserts `m` after every element whose time is not later than its own. */
  function InsertByTs(m: ChatMessage, s: seq<ChatMessage>): (r: seq<ChatMessage>)
    requires SortedByTs(s)
    ensures SortedByTs(r)
    ensures multiset(r) == multiset(s) + multiset{m}
    ensures r[0] == m || (s != [] && r[0] == s[0])
    decreases |s|
  {
    if s == [] then [m]
    else if m.ts < s[0].ts then
      SortedCons(m, s);
      [m] + s
    else
      var rest := InsertByTs(m, s[1..]);
      assert s == [s[0]] + s[1..];
      assert s[1..] != [] ==> s[0].ts <= s[1..][0].ts;
      SortedCons(s[0], rest);
      [s[0]] + rest
  }

  /** `merged.sort((a, b) => a.ts - b.ts)`: a stable sort by time (the order the language
      requires of `Array.prototype.sort`). */
  function SortByTs(s: seq<ChatMessage>): (r: seq<ChatMessage>)
    ensures SortedByTs(r)
    ensures multiset(r) == multiset(s)
    decreases |s|
  {
    if s == [] then []
    else
      var front := s[..|s| - 1];
      assert s == front + [s[|s| - 1]];
      InsertByTs(s[|s| - 1], SortByTs(front))
  }

  /** The functional update passed to `setMessages` when the history page arrives. */
  method MergeHistory(prev: seq<ChatMessage>, incoming: seq<ChatMessage>) returns (merged: seq<ChatMessage>)
    ensures merged == SortByTs(prev + Unseen(KeySet(prev), incoming))
    ensures SortedByTs(merged)
    ensures forall m :: multiset(merged)[m] == multiset(prev)[m] + (if Key(m) in KeySet(prev) then 0 else multiset(incoming)[m])
    ensures |merged| == |prev| + |Unseen(KeySet(prev), incoming)|
  {
    merged := CollectUnseen(prev, incoming);
    UnseenCounts(KeySet(prev), incoming);
    assert |multiset(merged)| == |merged|;
    merged := SortByTs(merged);
  }

  /** A message already on screen, such as one that arrived live before the page, is not
      shown a second time by the merge. */
  lemma ShownMessageNotDuplicated(prev: seq<ChatMessage>, incoming: seq<ChatMessage>, m: ChatMessage)
    requires m in prev
    ensures multiset(Unseen(KeySet(prev), incoming))[m] == 0
  {
    UnseenCounts(KeySet(prev), incoming);
  }

  /** The key does not tell messages apart when a `|` sits in the sender name or the text:
      a different fetched message is dropped as if it were already on screen. */
  lemma KeyCollision()
    ensures var shown := ChatMessage(ROOM_ID, "a|b", "c", 5);
            var fetched := ChatMessage(ROOM_ID, "a", "b|c", 5);
            shown != fetched && Key(shown) == Key(fetched) && Unseen(KeySet([shown]), [fetched]) == []
  {
    var shown := ChatMessage(ROOM_ID, "a|b", "c", 5);
    var fetched := ChatMessage(ROOM_ID, "a", "b|c", 5);
    assert LongToString(5) == "5";
    assert Key(shown) == Key(fetched);
    assert Key(fetched) in KeySet([shown]);
    assert [fetched][..0] == [];
  }

  // ---------------------------------------------------------------------------
  // Live frames
  // ---------------------------------------------------------------------------

  /** The functional update for a broadcast frame: the message goes at the end, with no
      de-duplication and no re-sorting. */
  function AppendLive(prev: seq<ChatMessage>, msg: ChatMessage): (r: seq<ChatMessage>)
    ensures |r| == |prev| + 1 && r[..|prev|] == prev && r[|prev|] == msg
  {
    prev + [msg]
  }

  /** So a frame already on screen is shown twice. */
  lemma LiveFrameNotDeduplicated(prev: seq<ChatMessage>, msg: ChatMessage)
    requires msg in prev
    ensures multiset(AppendLive(prev, msg))[msg] == multiset(prev)[msg] + 1 >= 2
  {
    assert multiset(prev)[msg] >= 1;
  }

  // ---------------------------------------------------------------------------
  // Sending
  // ---------------------------------------------------------------------------

  /** The characters `String.prototype.trim` removes: white space and line terminators. */
  predicate IsJsWhitespace(c: char) {
    var n := c as int;
    || (0x09 <= n <= 0x0D) || n == 0x20 || n == 0xA0 || n == 0x1680 || (0x2000 <= n <= 0x200A)
    || n == 0x2028 || n == 0x2029 || n == 0x202F || n == 0x205F || n == 0x3000 || n == 0xFEFF
  }

  /** `draft.trim()`. */
  function JsTrim(s: string): (r: string)
    ensures |r| <= |s|
    ensures r == [] || (!IsJsWhitespace(r[0]) && !IsJsWhitespace(r[|r| - 1]))
    ensures r == [] <==> forall i :: 0 <= i < |s| ==> IsJsWhitespace(s[i])
    decreases |s|
  {
    if s == [] then []
    else if IsJsWhitespace(s[0]) then JsTrim(s[1..])
    else if IsJsWhitespace(s[|s| - 1]) then JsTrim(s[..|s| - 1])
    else s
  }

  /** `r` is the slice `s[i..j]`, and everything `s` has outside it is white space. */
  predicate MiddleSlice(s: string, r: string, i: int, j: int) {
    && 0 <= i <= j <= |s| && r == s[i..j]
    && (forall k :: 0 <= k < i ==> IsJsWhitespace(s[k]))
    && (forall k :: j <= k < |s| ==> IsJsWhitespace(s[k]))
  }

  lemma MiddleSliceFront(s: string, r: string, i: int, j: int)
    requires s != [] && IsJsWhitespace(s[0]) && MiddleSlice(s[1..], r, i, j)
    ensures MiddleSlice(s, r, i + 1, j + 1)
  {
    assert forall k :: 0 < k < |s| ==> s[k] == s[1..][k - 1];
  }

  lemma MiddleSliceBack(s: string, r: string, i: int, j: int)
    requires s != [] && IsJsWhitespace(s[|s| - 1]) && MiddleSlice(s[..|s| - 1], r, i, j)
    ensures MiddleSlice(s, r, i, j)
  {
    assert forall k :: 0 <= k < |s| - 1 ==> s[k] == s[..|s| - 1][k];
  }

  /** `trim` cuts a run of white space off each end and nothing else: the result is the slice
      of the draft between those runs. */
  lemma {:induction false} JsTrimIsMiddleSlice(s: string)
    ensures exists i, j :: MiddleSlice(s, JsTrim(s), i, j)
    decreases |s|
  {
    if s == [] {
      assert MiddleSlice(s, JsTrim(s), 0, 0);
    } else if IsJsWhitespace(s[0]) {
      JsTrimIsMiddleSlice(s[1..]);
      var i, j :| MiddleSlice(s[1..], JsTrim(s[1..]), i, j);
      MiddleSliceFront(s, JsTrim(s), i, j);
    } else if IsJsWhitespace(s[|s| - 1]) {
      JsTrimIsMiddleSlice(s[..|s| - 1]);
      var i, j :| MiddleSlice(s[..|s| - 1], JsTrim(s[..|s| - 1]), i, j);
      MiddleSliceBack(s, JsTrim(s), i, j);
    } else {
      assert MiddleSlice(s, JsTrim(s), 0, |s|);
    }
  }

  /** What `send` publishes, if anything, and the draft it leaves. */
  datatype SendOutcome = SendOutcome(published: Option<ChatMessage>, draft: string)

  /** `send()` at clock reading `now`: nothing is published without a client, before the
      connection is up, or for a blank draft; otherwise the trimmed draft goes out under the
      user's name (`me` when it is empty) and the draft is cleared. */
  function Send(hasClient: bool, connected: bool, draft: string, username: string, now: int): (r: SendOutcome)
    ensures r.published.Some? <==> hasClient && connected && exists i :: 0 <= i < |draft| && !IsJsWhitespace(draft[i])
    ensures r.published.None? ==> r.draft == draft
    ensures r.published.Some? ==>
              && r.draft == ""
              && r.published.value.roomId == ROOM_ID && r.published.value.ts == now
              && r.published.value.content == JsTrim(draft) && r.published.value.content != []
              && r.published.value.senderId == (if username == "" then "me" else username)
  {
    if !hasClient || !connected then SendOutcome(None, draft)
    else
      var text := JsTrim(draft);
      if text == [] then SendOutcome(None, draft)
      else SendOutcome(Some(ChatMessage(ROOM_ID, if username == "" then "me" else username, text, now)), "")
  }
}
