# TurtleMessenger core, modelled in Dafny

TurtleMessenger is a small chat application. It has a Spring backend, which issues its own HS256 JSON Web Tokens and stores users, contacts, rooms and messages. It also has a React client.

This project models these parts of the system, and proves properties about each:

- **Contact engine.** Requests, acceptance, listing and removal between users. The model is a pure specification over a map of contact records. There is also an imperative service class. Its methods mutate `ContactRelation` objects in place and are proved equal to that specification.
- **Registration and login.** The validation chain of `register` and the credential check of `authenticate`.
- **Token utility.**
  - `escape`;
  - the hand-rolled flat JSON reader;
  - the payload that `generateToken` writes;
  - `isValid`, `getSubject` and `constantTimeEquals`.
- **Chat service.** Room creation on first use, the defaults of a stored message, and the history page.
- **Persistence hook.** The hook that copies a message's text into its legacy column.
- **Browser client.**
  - the merge of a fetched history page into the messages on screen;
  - the live append of broadcast frames;
  - the send guard.

## Layout

| file | module | models |
|---|---|---|
| `results.dfy` | `Results` | `Option` (Java `null`) and `Result` (an exception with its message) |
| `java_strings.dfy` | `JavaStrings` | Java library behaviour the code relies on; see the list below |
| `accounts.dfy` | `Accounts` | user rows, `findById`, `findByUsername`, `normalize` |
| `contact_relation.dfy` | `ContactRelations` | the `ContactRelation` entity as a class |
| `contact_rules.dfy` | `ContactRules` | what every contact operation does to the table, as functions, and the lemmas about them |
| `contact_service.dfy` | `Contacts` | `ContactService` as a class over the relation objects |
| `flat_json.dfy` | `FlatJson` | `JwtUtil.Json.parse` and the writer of flat objects |
| `jwt.dfy` | `Jwt` | `JwtUtil` |
| `auth_service.dfy` | `Auth` | `AuthService` |
| `message.dfy` | `Messages` | the `Message` entity and `syncLegacyColumns` |
| `chat_service.dfy` | `Chat` | `ChatService` |
| `client_history.dfy` | `ClientHistory` | the message list logic of `App.tsx` |

`JavaStrings` covers these parts of Java's library:

- `trim`;
- `toLowerCase(Locale.ROOT)`;
- `Long.parseLong` and `Long.toString`;
- `split`, including the two-argument form;
- UTF-16 `length()`;
- `long` wrap-around.

### Conventions

- Java `null` is `None`.
- A thrown exception is an `Err` carrying its message.
- Clock readings are parameters named `now`.
- Library code the services call through is a function-typed field of the class:
  - the HMAC signer;
  - base64url encoding and decoding;
  - UTF-8 encoding;
  - the BCrypt encoder and matcher.

  What the code relies on about these functions is stated as `requires` on the lemmas that use it.

### Where the code departs from its own comments

- **Ties in `incomingRequests`.** The comment at `ContactService.java:44-45` says a request is hidden only when the caller's inverse PENDING record was created earlier. The filter at line 49 instead keeps a request only when it is strictly older than the caller's inverse record. So a record created at the same instant hides the request, and so does an inverse record of any status. The model follows the code. `ContactRules.IncomingTieIsDropped` and `ContactRules.IncomingIgnoresInverseStatus` state this behaviour.
- **Unique-key violations.** `addContact` has no handler for a unique-key violation. Concurrent inserts are out of scope (see "## Left out").

### Client key collision

The client's de-duplication key joins `ts`, `senderId` and `content` with `|`. So two different messages can share a key, and the second one is then dropped from the merge. `ClientHistory.KeyCollision` gives a concrete pair.

## Model

| member | source | states |
|---|---|---|
| `Accounts.FindById` | src/main/java/io/turtlemessenger/service/ContactService.java:146 | an account is found only if it holds the id; none is found only when no account holds it |
| `Accounts.FindByUsername` | src/main/java/io/turtlemessenger/service/AuthService.java:38 | an account is found only under exactly that name; none is found only when no account has it |
| `Accounts.FindByUsernameAppended` | src/main/java/io/turtlemessenger/service/AuthService.java:28-33 | after a new name is saved, looking it up finds the saved account |
| `Accounts.Normalize` | src/main/java/io/turtlemessenger/service/AuthService.java:45-47 | `null` gives `""`; the result has no trimmable character at either end and no upper-case ASCII letter |
| `Accounts.NormalizeIdempotent` | src/main/java/io/turtlemessenger/service/ContactService.java:152-154 | normalising a normalised name changes nothing |
| `JavaStrings.Trim` | src/main/java/io/turtlemessenger/service/AuthService.java:46 | the result is no longer than the input and neither end is a character `<= ' '` |
| `JavaStrings.TrimIsMiddleSlice` | src/main/java/io/turtlemessenger/service/AuthService.java:46 | `trim` returns the slice between the leading and trailing runs of characters `<= ' '` |
| `JavaStrings.TrimIdempotent` | src/main/java/io/turtlemessenger/security/JwtUtil.java:87-89 | trimming twice is trimming once |
| `JavaStrings.ToLower` | src/main/java/io/turtlemessenger/service/AuthService.java:46 | every character is lower-cased on its own and the length is kept |
| `JavaStrings.ParseLong` | src/main/java/io/turtlemessenger/service/ContactService.java:145 | a string parses iff it is an optional `-` or `+` followed by at least one ASCII digit and its signed value fits in a `long`; the result is that signed value; anything else, including a numeral out of the `long` range, is the `NumberFormatException` path |
| `JavaStrings.LongToString` | src/main/java/io/turtlemessenger/service/ChatService.java:34 | the text is an optional `-` followed by at least one ASCII digit |
| `JavaStrings.ParseLongOfLongToString` | src/main/java/io/turtlemessenger/service/ContactService.java:145 | `Long.parseLong` reads back every `long` that `Long.toString` writes |
| `JavaStrings.WrapLong` | src/main/java/io/turtlemessenger/security/JwtUtil.java:22 | the result is a `long`, congruent to the input modulo 2^64, and equal to the input when that already fits |
| `JavaStrings.Split` | src/main/java/io/turtlemessenger/security/JwtUtil.java:33 | no piece contains the separator |
| `JavaStrings.SplitLimit2` | src/main/java/io/turtlemessenger/security/JwtUtil.java:92 | one piece exactly when the separator is absent; otherwise the input is cut at its first separator |
| `JavaStrings.Utf16Length` | src/main/java/io/turtlemessenger/service/AuthService.java:22 | the UTF-16 length is at least the number of code points, and equal to it when there is no supplementary character |
| `ContactRelations.ContactRelation.constructor` | src/main/java/io/turtlemessenger/model/ContactRelation.java:25-36 | owner and target are stored; a `null` status becomes PENDING; `createdAt` is the clock reading |
| `ContactRelations.ContactRelation.SetStatus` | src/main/java/io/turtlemessenger/model/ContactRelation.java:44 | only the status changes |
| `ContactRules.RequireUser` | src/main/java/io/turtlemessenger/service/ContactService.java:28-31 | no principal gives `unauthenticated`; an unknown name gives `user not found`; otherwise the result is the account with that name |
| `ContactRules.ResolveForAdd` | src/main/java/io/turtlemessenger/service/ContactService.java:59-68 | a numeric reference that names an id resolves to that account; a numeric reference with no such id, or a non-numeric one, resolves by normalised username |
| `ContactRules.ResolveUser` | src/main/java/io/turtlemessenger/service/ContactService.java:143-150 | a numeric reference resolves only by id; any other reference resolves by normalised username |
| `ContactRules.ResolversDisagreeOnNumericUsername` | src/main/java/io/turtlemessenger/service/ContactService.java:59-68 | a user named `007` can be added under that name but cannot be accepted or removed under it |
| `ContactRules.AddOutcome` | src/main/java/io/turtlemessenger/service/ContactService.java:55-102 | a failed `addContact` writes nothing; no record is ever deleted; the table stays keyed by (owner, target) |
| `ContactRules.AddTarget` | src/main/java/io/turtlemessenger/service/ContactService.java:69-101 | the same three properties once both users are known |
| `ContactRules.AcceptOutcome` | src/main/java/io/turtlemessenger/service/ContactService.java:104-132 | a failed `accept` writes nothing; no record is deleted; keys are kept; a success reports ACCEPTED |
| `ContactRules.AcceptFrom` | src/main/java/io/turtlemessenger/service/ContactService.java:110-131 | the same properties once both users are known |
| `ContactRules.RemoveOutcome` | src/main/java/io/turtlemessenger/service/ContactService.java:134-141 | `remove` only deletes records, keeps the rest unchanged, and a failure writes nothing |
| `ContactRules.RecordsUniquePerPair` | src/main/java/io/turtlemessenger/model/ContactRelation.java:7-9 | at most one record exists per ordered (owner, target) pair |
| `ContactRules.ContactListExact` | src/main/java/io/turtlemessenger/service/ContactService.java:33-39 | a person is listed exactly when the caller owns an ACCEPTED record aimed at them, and every entry reads ACCEPTED |
| `ContactRules.IncomingRequestsExact` | src/main/java/io/turtlemessenger/service/ContactService.java:41-53 | requester r is listed iff r owns a PENDING record aimed at the caller and either the caller has no record back or r's record is strictly older |
| `ContactRules.IncomingTieIsDropped` | src/main/java/io/turtlemessenger/service/ContactService.java:47-50 | two records created at the same instant hide the request |
| `ContactRules.IncomingIgnoresInverseStatus` | src/main/java/io/turtlemessenger/service/ContactService.java:48-49 | the status of the caller's own reverse record never affects the incoming list |
| `ContactRules.AddRejectsUnknownOrSelf` | src/main/java/io/turtlemessenger/service/ContactService.java:68-69 | an unknown target gives `user not found` and the caller themself gives `cannot add yourself`; neither writes anything |
| `ContactRules.AddExistingIsUnchanged` | src/main/java/io/turtlemessenger/service/ContactService.java:71-75 | an existing own record is reported as it is, in any status, and nothing is written |
| `ContactRules.AddIsIdempotent` | src/main/java/io/turtlemessenger/service/ContactService.java:55-102 | repeating a successful `addContact` at any later time gives the same answer and writes nothing |
| `ContactRules.AddAgainstReverseRecord` | src/main/java/io/turtlemessenger/service/ContactService.java:77-96 | a PENDING reverse request makes both records ACCEPTED; an ACCEPTED reverse record gets an ACCEPTED record back; a BLOCKED one fails with no write |
| `ContactRules.AddBetweenStrangers` | src/main/java/io/turtlemessenger/service/ContactService.java:98-101 | between strangers only the caller's PENDING record is created |
| `ContactRules.AcceptRules` | src/main/java/io/turtlemessenger/service/ContactService.java:104-132 | `accept` succeeds iff the other's record to the caller is PENDING and the caller's record is not a strictly older PENDING one; then both directions are ACCEPTED, a missing own record is created, and nothing else changes |
| `ContactRules.AcceptGuardTiePasses` | src/main/java/io/turtlemessenger/service/ContactService.java:120-121 | the role-inversion guard lets a same-instant record through |
| `ContactRules.RemoveRules` | src/main/java/io/turtlemessenger/service/ContactService.java:134-141 | both directions are deleted when the other user resolves, nothing when they do not, and a second `remove` changes nothing |
| `ContactRules.MutualAddCollapses` | src/main/java/io/turtlemessenger/service/ContactService.java:79-87 | A adds B, then B adds A: both records end ACCEPTED |
| `ContactRules.OnlyRecipientAccepts` | src/main/java/io/turtlemessenger/service/ContactService.java:110-123 | after A requests B, A's own `accept` fails with `no request found` and B's succeeds, leaving both directions ACCEPTED |
| `Contacts.ContactService.constructor` | src/main/java/io/turtlemessenger/service/ContactService.java:22-26 | an empty, well-keyed contact table |
| `Contacts.ContactService.NoSharedRecords` | src/main/java/io/turtlemessenger/model/ContactRelation.java:7-9 | two keys never share one relation object |
| `Contacts.ContactService.ListContacts` | src/main/java/io/turtlemessenger/service/ContactService.java:33-39 | returns, without repetition, exactly the set `ContactRules.ContactList` describes, or its error |
| `Contacts.ContactService.IncomingRequests` | src/main/java/io/turtlemessenger/service/ContactService.java:41-53 | returns, without repetition, exactly the set `ContactRules.IncomingList` describes, or its error |
| `Contacts.ContactService.Insert` | src/main/java/io/turtlemessenger/service/ContactService.java:100 | saving a new relation adds exactly its snapshot under its own key |
| `Contacts.ContactService.SetStatusAt` | src/main/java/io/turtlemessenger/service/ContactService.java:127-129 | changing one object's status changes exactly that row |
| `Contacts.ContactService.AddContact` | src/main/java/io/turtlemessenger/service/ContactService.java:55-102 | the result and the new table are those of `ContactRules.AddOutcome` |
| `Contacts.ContactService.AddResolved` | src/main/java/io/turtlemessenger/service/ContactService.java:69-101 | the result and the new table are those of `ContactRules.AddTarget` |
| `Contacts.ContactService.AnswerReverse` | src/main/java/io/turtlemessenger/service/ContactService.java:77-96 | the result and the new table are those of `ContactRules.AddTarget` when only the reverse record exists |
| `Contacts.ContactService.Accept` | src/main/java/io/turtlemessenger/service/ContactService.java:104-132 | the result and the new table are those of `ContactRules.AcceptOutcome` |
| `Contacts.ContactService.AcceptResolved` | src/main/java/io/turtlemessenger/service/ContactService.java:110-131 | the result and the new table are those of `ContactRules.AcceptFrom` |
| `Contacts.ContactService.AcceptBoth` | src/main/java/io/turtlemessenger/service/ContactService.java:125-130 | both directions become ACCEPTED; a missing own record is created PENDING at `now` first |
| `Contacts.ContactService.InsertAccepted` | src/main/java/io/turtlemessenger/service/ContactService.java:125-130 | a missing own record is created, set to ACCEPTED and saved |
| `Contacts.ContactService.Remove` | src/main/java/io/turtlemessenger/service/ContactService.java:134-141 | the result and the new table are those of `ContactRules.RemoveOutcome` |
| `Contacts.ContactsAmongStep` | src/main/java/io/turtlemessenger/service/ContactService.java:36 | scanning one more record adds at most that record's view to the contact list |
| `Contacts.IncomingAmongStep` | src/main/java/io/turtlemessenger/service/ContactService.java:46-51 | scanning one more record adds at most that record's view to the incoming list |
| `FlatJson.ReadKey` | src/main/java/io/turtlemessenger/security/JwtUtil.java:93-95 | quotes come off a quoted key; any other key is kept; a lone `"` throws |
| `FlatJson.ReadValue` | src/main/java/io/turtlemessenger/security/JwtUtil.java:94-101 | a quoted value is text, a parseable `long` is a number, anything else is text; a lone `"` throws |
| `FlatJson.Parse` | src/main/java/io/turtlemessenger/security/JwtUtil.java:83-105 | the loop builds exactly the map `ParseJson` describes, or throws exactly when it does |
| `FlatJson.PutAllStep` | src/main/java/io/turtlemessenger/security/JwtUtil.java:91-102 | one piece of the loop: a bad piece throws, a good one is put and the rest follow |
| `FlatJson.ParseJsonNotAnObject` | src/main/java/io/turtlemessenger/security/JwtUtil.java:87-104 | text that is not a braced object gives the empty map |
| `FlatJson.ParseJsonEmptyObject` | src/main/java/io/turtlemessenger/security/JwtUtil.java:89-90 | an object with a blank body gives the empty map |
| `FlatJson.SplitJoin` | src/main/java/io/turtlemessenger/security/JwtUtil.java:91 | `split` undoes joining pieces that do not contain the separator, provided the last piece is not empty |
| `FlatJson.ReadRenderedEntry` | src/main/java/io/turtlemessenger/security/JwtUtil.java:92-101 | a written `"k":v` piece is read back as `(k, v)` |
| `FlatJson.PutAllRendered` | src/main/java/io/turtlemessenger/security/JwtUtil.java:91-102 | reading the written pieces puts every entry in order, so later keys win |
| `FlatJson.RenderedBodyTrimmed` | src/main/java/io/turtlemessenger/security/JwtUtil.java:89 | a written body is not changed by the reader's `trim` |
| `FlatJson.ParseRender` | src/main/java/io/turtlemessenger/security/JwtUtil.java:83-105 | reading back a written flat object gives the map of its entries, when no key contains `,` or `:` and no text value contains `,` |
| `Jwt.ReplaceConcat` | src/main/java/io/turtlemessenger/security/JwtUtil.java:76 | `replace` of a character works piece by piece: replacing in a concatenation is concatenating the replaced pieces |
| `Jwt.EscapeByCharacter` | src/main/java/io/turtlemessenger/security/JwtUtil.java:75-77 | the two replace passes act like one pass that escapes each character |
| `Jwt.UnescapeEscapeEach` | src/main/java/io/turtlemessenger/security/JwtUtil.java:75-77 | reading a backslash as "take the next character literally" undoes `escape` |
| `Jwt.EscapeInjective` | src/main/java/io/turtlemessenger/security/JwtUtil.java:75-77 | two subjects with the same escaped form are equal |
| `Jwt.EscapeAddsNothingElse` | src/main/java/io/turtlemessenger/security/JwtUtil.java:75-77 | `escape` introduces no character other than `\` |
| `Jwt.EscapeIdentityIff` | src/main/java/io/turtlemessenger/security/JwtUtil.java:75-77 | `escape` leaves a string unchanged iff it has no `\` and no `"` |
| `Jwt.PayloadIsFlatObject` | src/main/java/io/turtlemessenger/security/JwtUtil.java:24 | the payload is the flat object with `sub`, `iat`, `exp` written in that order |
| `Jwt.PayloadFields` | src/main/java/io/turtlemessenger/security/JwtUtil.java:24-50 | reading the payload back gives `sub` as text and `iat`/`exp` as numbers, when the subject has no `,` |
| `Jwt.JwtUtil.constructor` | src/main/java/io/turtlemessenger/security/JwtUtil.java:15-18 | stores the lifetime and the signing key (as the signer) |
| `Jwt.JwtUtil.Expiry` | src/main/java/io/turtlemessenger/security/JwtUtil.java:22 | `now + ttlSeconds` when it fits in a `long`; wrapped to a negative value when it overflows |
| `Jwt.JwtUtil.ConstantTimeEquals` | src/main/java/io/turtlemessenger/security/JwtUtil.java:68-74 | the XOR-OR loop returns true iff the UTF-8 encodings are equal |
| `Jwt.JwtUtil.GeneratedTokenParts` | src/main/java/io/turtlemessenger/security/JwtUtil.java:20-29 | a generated token splits into exactly header, payload and the signature over `header.payload` |
| `Jwt.JwtUtil.GeneratedTokenValidUntilExpiry` | src/main/java/io/turtlemessenger/security/JwtUtil.java:31-45 | a generated token is valid at a later instant iff that instant is before its expiry |
| `Jwt.JwtUtil.GeneratedTokenSubject` | src/main/java/io/turtlemessenger/security/JwtUtil.java:47-52 | `getSubject` of a generated token is the escaped subject |
| `Jwt.JwtUtil.SubjectRoundTripIff` | src/main/java/io/turtlemessenger/security/JwtUtil.java:24-52 | the subject comes back unchanged iff it contains no `\` and no `"` |
| `Jwt.JwtUtil.OverflowedExpiryRejects` | src/main/java/io/turtlemessenger/security/JwtUtil.java:22-41 | a token whose expiry overflowed is never valid |
| `Jwt.JwtUtil.ValidTokenIsSigned` | src/main/java/io/turtlemessenger/security/JwtUtil.java:33-36 | a valid token has three parts and its third part is the signature of the first two |
| `Jwt.JwtUtil.TrailingDotIgnored` | src/main/java/io/turtlemessenger/security/JwtUtil.java:33-34 | one trailing `.` does not change validity, because `split` drops the empty last piece |
| `Auth.IsValidUsername` | src/main/java/io/turtlemessenger/service/AuthService.java:22 | accepted iff the name has 3 to 50 characters, all from `[a-z0-9._-]` |
| `Auth.RegistrationError` | src/main/java/io/turtlemessenger/service/AuthService.java:21-30 | each error message appears iff its check is the first to fail, in the order username, then password, then taken |
| `Auth.Authenticate` | src/main/java/io/turtlemessenger/service/AuthService.java:36-43 | an unknown name and a wrong password both give `invalid credentials`; a `null` password for a known name gives the matcher's own exception; success returns the stored account with the normalised name whose hash matches the password; in a valid table success happens iff such an account exists and the password is not `null` |
| `Auth.ValidUsernameIsNormal` | src/main/java/io/turtlemessenger/service/AuthService.java:21-22 | an accepted name is stored exactly as it was normalised |
| `Auth.RegisteredUserAuthenticates` | src/main/java/io/turtlemessenger/service/AuthService.java:20-43 | after registering, logging in with the same name and password returns the new account |
| `Auth.RegisteredNameTaken` | src/main/java/io/turtlemessenger/service/AuthService.java:28-30 | every spelling that normalises to a registered name is refused as taken |
| `Auth.AuthService.constructor` | src/main/java/io/turtlemessenger/model/UserAccount.java:7 | the user table starts with its unique constraints satisfied |
| `Auth.AuthService.Register` | src/main/java/io/turtlemessenger/service/AuthService.java:20-34 | a refused registration returns its message and leaves the table as it was; an accepted one appends exactly one account, under the normalised name and with the encoder's hash, keeping usernames unique |
| `Messages.SyncedContent` | src/main/java/io/turtlemessenger/model/Message.java:41-43 | an existing text is kept; a missing one is taken from the legacy column |
| `Messages.Synced` | src/main/java/io/turtlemessenger/model/Message.java:40-45 | both text columns hold the synchronised text and no other column changes |
| `Messages.SyncedIdempotent` | src/main/java/io/turtlemessenger/model/Message.java:38-45 | running the hook twice is running it once |
| `Messages.SyncedKeepsText` | src/main/java/io/turtlemessenger/model/Message.java:41-44 | a row with text keeps it and overwrites the legacy column with it |
| `Messages.Message.constructor` | src/main/java/io/turtlemessenger/model/Message.java:34-36 | every column is `null` except `createdAt` |
| `Messages.Message.SyncLegacyColumns` | src/main/java/io/turtlemessenger/model/Message.java:38-45 | the object's new columns are `Synced` of its old ones |
| `Chat.EnsuredRoom` | src/main/java/io/turtlemessenger/service/ChatService.java:33-35 | an existing room is returned unchanged; otherwise the room `Room <id>` is added; no other room changes |
| `Chat.EnsuredRoomStable` | src/main/java/io/turtlemessenger/service/ChatService.java:33-35 | rooms stay keyed by their ids, the returned room has the asked id, and ensuring twice is ensuring once |
| `Chat.SenderName` | src/main/java/io/turtlemessenger/service/ChatService.java:40 | the principal, else the client's sender id, else `anonymous` |
| `Chat.SavedText` | src/main/java/io/turtlemessenger/service/ChatService.java:46 | the client's text, else `""` |
| `Chat.SavedTime` | src/main/java/io/turtlemessenger/service/ChatService.java:47 | the client's timestamp when it is positive, else the server clock |
| `Chat.SenderAccount` | src/main/java/io/turtlemessenger/service/ChatService.java:41 | the message is linked to an account iff one has the sender name; the link is that account's id, the only one under unique usernames |
| `Chat.HistoryLimit` | src/main/java/io/turtlemessenger/service/ChatService.java:53 | the page size is always between 1 and 200; it is the requested size when that lies in 1..200, else 50 |
| `Chat.BeforeBound` | src/main/java/io/turtlemessenger/service/ChatService.java:55 | only a positive `beforeTs` bounds the query |
| `Chat.Reversed` | src/main/java/io/turtlemessenger/service/ChatService.java:60 | position i of the result is position n-1-i of the input |
| `Chat.ReversedAscending` | src/main/java/io/turtlemessenger/service/ChatService.java:56-60 | reversing a newest-first page gives an oldest-first page |
| `Chat.Dtos` | src/main/java/io/turtlemessenger/service/ChatService.java:61-71 | every row is mapped to its DTO, in order |
| `Chat.Reverse` | src/main/java/io/turtlemessenger/service/ChatService.java:60 | the array is reversed in place |
| `Chat.NewMessage` | src/main/java/io/turtlemessenger/service/ChatService.java:42-47 | the new message carries the room, the sender, the saved text in both text columns, and the saved time |
| `Chat.ChatService.constructor` | src/main/java/io/turtlemessenger/service/ChatService.java:27-31 | empty room and message tables |
| `Chat.ChatService.EnsureRoom` | src/main/java/io/turtlemessenger/service/ChatService.java:33-35 | the returned room and the new room table are `EnsuredRoom` of the old table |
| `Chat.ChatService.SaveMessage` | src/main/java/io/turtlemessenger/service/ChatService.java:38-49 | the room is ensured and exactly one row is appended, with the next id, the sender defaults, the text defaults, the time default and the legacy copy |
| `Chat.ChatService.GetHistory` | src/main/java/io/turtlemessenger/service/ChatService.java:52-62 | the result is the fetched page oldest-first: at most `limit` messages, all of the room, all older than a positive `beforeTs`, in ascending time |
| `Chat.SavedMessageInWindow` | src/main/java/io/turtlemessenger/service/ChatService.java:55-58 | a room's message falls in the query window iff no positive bound is set or it is older than the bound |
| `ClientHistory.KeySet` | frontend/src/App.tsx:53-54 | every message on screen has its key in `seen` |
| `ClientHistory.KeySetExact` | frontend/src/App.tsx:54 | a key is in `seen` iff some message on screen has it |
| `ClientHistory.Unseen` | frontend/src/App.tsx:56 | only fetched messages whose key is not in `seen` are added, and never more of them than were fetched |
| `ClientHistory.UnseenCounts` | frontend/src/App.tsx:54-56 | a fetched message is added as often as it was fetched when its key is unseen, and not at all otherwise |
| `ClientHistory.CollectUnseen` | frontend/src/App.tsx:55-56 | the loop leaves the shown messages in order, followed by the unseen fetched ones |
| `ClientHistory.InsertByTs` | frontend/src/App.tsx:57 | inserting into a time-sorted list keeps it sorted and adds exactly that message |
| `ClientHistory.SortByTs` | frontend/src/App.tsx:57 | the sort returns a time-sorted permutation of its input |
| `ClientHistory.MergeHistory` | frontend/src/App.tsx:52-59 | the merged list is sorted by time, holds every shown message, adds each fetched message with an unseen key as often as it was fetched, and nothing else |
| `ClientHistory.ShownMessageNotDuplicated` | frontend/src/App.tsx:53-56 | a message already on screen is not added again by the merge |
| `ClientHistory.KeyCollision` | frontend/src/App.tsx:53 | two different messages can share a key, and the fetched one is then dropped |
| `ClientHistory.AppendLive` | frontend/src/App.tsx:47 | a live frame goes at the end and the earlier list is kept |
| `ClientHistory.LiveFrameNotDeduplicated` | frontend/src/App.tsx:47 | a frame already on screen is shown twice |
| `ClientHistory.JsTrim` | frontend/src/App.tsx:73 | the result starts and ends with non-white-space, and is empty iff the draft is all white space |
| `ClientHistory.JsTrimIsMiddleSlice` | frontend/src/App.tsx:73 | the trimmed draft is the slice of the draft between a leading and a trailing run of white space |
| `ClientHistory.Send` | frontend/src/App.tsx:71-78 | a message is published iff there is a client, it is connected and the draft has a non-blank character; it carries room 1, the trimmed text, the user name or `me`, and the clock; the draft is cleared only when something is published |

## Left out

- Password hashing:
  - BCrypt's salting is random, so its hash is modelled as a function of the password.
  - `Auth.AuthService.Register` does not model an exception thrown by the encoder.
  - `Auth.Authenticate` takes the message of the matcher's exception for a `null` password from `BCryptPasswordEncoder`, the encoder configured at `SecurityConfig.java:47-48`.
- Signing and encoding: HMAC-SHA256, base64url and UTF-8 are uninterpreted functions. What the proofs use about them is stated as a hypothesis (`Jwt.JwtUtil.Codecs`).
- Unicode:
  - `toLowerCase(Locale.ROOT)` is modelled on ASCII letters only.
  - `Long.parseLong` is modelled on ASCII digits only; Java also accepts other Unicode decimal digits.
- Number formatting: `String.format("%d", …)` in the token payload is modelled as `Long.toString`, which is what it writes under a locale with ASCII digits.
- `ClientHistory.Key`: a frame whose `senderId` or `content` is JSON `null` is not represented. The template would render such a field as `null`, and the model types both fields as strings.
- Clocks: `Instant.now()` and `Date.now()` are the parameter `now`.
- Time precision:
  - `createdAt` values are whole numbers compared as instants.
  - Token times are in seconds and message times in milliseconds; no conversion between them is modelled.
- Repository queries:
  - `findByUserAndStatus` and `findByContactAndStatus` are modelled as scans of the contact map, and their results are compared as sets, because the table defines no order.
  - `Contacts.ContactService.ListContacts` does not state the order of its result, only its contents and that nothing repeats.
  - `Contacts.ContactService.IncomingRequests` does not state the order of its result either.
- `Chat.ChatService.GetHistory` takes the repository's newest-first page as a parameter. The query is described by a precondition rather than computed, because it is a database query with an order and a limit.
- `ClientHistory.MergeHistory` proves the merged list sorted and a permutation of the shown and new messages. Stability is modelled by the insertion sort, but no lemma states it.
- `ClientHistory.Send`:
  - The white-space set of `String.prototype.trim` is taken from the ECMAScript standard. Its Unicode space separators are listed explicitly.
  - Publishing over STOMP is modelled as the returned message, not as I/O.
- Not modelled:
  - controllers;
  - the security filter chain;
  - the STOMP channel interceptor;
  - the HTTP error mapping;
  - `localStorage`;
  - the login and registration forms;
  - WebSocket reconnection;
  - transactions and concurrency, including the uniqueness-violation race on concurrent `addContact`.
- `Jwt.Escape`, `FlatJson.ParseJson`, `Jwt.JwtUtil.GenerateToken`, `Jwt.JwtUtil.IsValid` and `Jwt.JwtUtil.GetSubject` carry no contract of their own. They are stated through the lemmas on them: `Jwt.EscapeInjective` and `Jwt.EscapeIdentityIff`; `FlatJson.Parse` and `FlatJson.ParseRender`; `Jwt.JwtUtil.GeneratedTokenParts`, `Jwt.JwtUtil.GeneratedTokenValidUntilExpiry`, `Jwt.JwtUtil.GeneratedTokenSubject` and `Jwt.JwtUtil.ValidTokenIsSigned`. Their round-trip lemmas require a subject without `,`: the reader splits on `,`, so such a subject breaks the payload.
