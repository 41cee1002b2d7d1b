# Authenticated message store — a Dafny model

This project models the server of a small internal mail service. Users sign up
with a username and password and log in to get a bearer token. With that token
they send short messages to other registered users, list their inbox newest
first, delete their own messages and log out. The service keeps three pieces of
state:

- the `users` table, a map from username to password (the `username` column is
  `unique`, so no stored name has two rows; the map holds names as sqlite
  stored them, which is the NUL cut described below);
- the `messages` table, a sequence of rows (id, sender, recipient, subject,
  body, creation time) in insertion order, whose `id` is the primary key;
- the in-memory session map from bearer token to username.

Modules, leaf first:

- `Wrappers`: `Option`.
- `Tables`: the rows and the meaning of the SQL statements. The message query
  (rows addressed to a user, `order by created_at desc`) and the owner-checked
  delete are functions, with lemmas that the inbox holds exactly the user's
  messages, newest first, and that the delete removes exactly the one matching
  row.
- `Tokens`: the hex rendering inside `generateToken`, as a loop method proved
  against `HexString`, with round-trip lemmas to a decoder.
- `Auth`: the `Authorization: Bearer ` check and token extraction.
- `Storage`: class `Database`, whose fields are the two tables and whose
  methods are the six database operations.
- `Routes`: the decision logic of the six route handlers, as functions from the
  state and the request's inputs to the new state and the reply. Their
  contracts give the condition for each status code they name, as an
  if-and-only-if, and say that every failure leaves the state unchanged.
- `Traces`: any sequence of requests. The lemmas prove these hold along every
  run: the service stays valid; accounts are never lost or altered; no NUL is
  ever stored; a message disappears only through its recipient's own delete.
  A walkthrough shows any two users exchanging and deleting a message.
- `Server`: class `Service`, which holds the `Database` and the session map.
  Each route is a method that calls the database the way its handler does. Its
  contract ties the new state and the reply to the matching `Routes` function.

Randomness, the clock and request decoding are inputs:

- the 32 random bytes `generateToken` draws are a parameter;
- `current_timestamp` is an integer parameter `now`;
- a request body arrives already decoded, and `None` means "not valid JSON".

Points where the code's behaviour is easy to misread, as the model has them:

- Every string goes to sqlite through `sqlite3_bind_text` with length -1, so
  sqlite reads it as a C string and it ends at its first NUL character.
  `Tables.Bound` models that cut. Names, passwords, ids and message fields are
  looked up and stored as bound. The session map and the login reply keep the
  name as given. The password check compares the given password, in full,
  with the stored one. The consequences:
  - signing up as `"bob\0x"` while `bob` exists gives 409;
  - a password holding a NUL is stored cut, so a login that repeats it in full
    gives 401;
  - a message to `"fish\0x"` is delivered to `fish`.
  Stored values therefore never hold a NUL. `Tables.NulFree` states this, and it
  is part of `Database.Valid`. `Traces.RunNulFree` proves that every run keeps
  it. Reading a value back as a C string therefore returns it whole.
- A username may be empty. Nothing in `main.cpp` rejects it.
- Messages with equal timestamps come back in no order the query promises.
  Only non-increasing `created_at` is proved. No later-insertion-first rule is.
- `/api/getmsgs` for a session whose user is not in the table sets no status
  (`StatusUnset`). The invariant `Routes.Valid` proves this cannot happen.
- `/api/createusr` ignores `createUser`'s result and always answers 200 after
  the existence check.
- Login binds `sessions[token]` whether or not that token is already bound.
  A colliding token therefore overwrites the earlier session.

## Model

| member | source | states |
|---|---|---|
| Tables.Bound | main.cpp:89-90 | a string bound with length -1 is its longest NUL-free prefix: a prefix, holding no NUL, and followed by a NUL when shorter |
| Tables.BoundWhole | main.cpp:89-90 | a NUL-free string is bound whole, so binding twice is binding once |
| Tables.NewRow | main.cpp:143-147 | the stored row carries each of the message's fields as bound, and the insertion time; it holds no NUL |
| Tables.Addressed | main.cpp:158-159 | the `where to_user = ?` selection holds exactly the rows addressed to the user |
| Tables.AddressedMultiset | main.cpp:158-159 | the selection holds each row addressed to the user as often as the table does, and no other row |
| Tables.InsertByTime | main.cpp:159 | inserting a row into a newest-first sequence keeps it newest-first and adds exactly that row |
| Tables.SelectInbox | main.cpp:158-159 | the query's rows are a permutation of the user's rows, in non-increasing `created_at` |
| Tables.SelectInboxMembers | main.cpp:158-159 | a row is selected iff it is stored and addressed to the user; as many rows as there are such rows |
| Tables.Listing | main.cpp:167-180 | one `Message` for each row addressed to the user, each addressed to the user |
| Tables.ListingAt | main.cpp:167-180 | message i of the listing is selected row i read back |
| Tables.ListingIsInbox | main.cpp:155-184 | the listing is an inbox: every message addressed to the user, every row addressed to the user present, one message per such row |
| Tables.ListingExact | main.cpp:155-184 | the listing has one `Message` per row addressed to the user, none missing, none extra, all addressed to the user, newest first |
| Tables.ListingEmpty | main.cpp:155-184 | the listing is empty iff no stored row is addressed to the user |
| Tables.DeleteWhere | main.cpp:188 | after the delete a row remains iff it was stored and does not match both id and recipient; the primary key still holds |
| Tables.DeleteWhereCount | main.cpp:186-201 | the delete changes some row iff a row matches id and recipient, and then exactly one; otherwise the table is unchanged |
| Tokens.HexDigit | main.cpp:211 | a value below sixteen becomes a lowercase hex digit |
| Tokens.DigitValue | main.cpp:211 | reading a digit back gives its unique value; only lowercase hex digits are read |
| Tokens.HexByte | main.cpp:211 | a byte becomes two digits, high nibble first, zero-padded below sixteen |
| Tokens.HexString | main.cpp:209-213 | n bytes become 2n lowercase hex digits |
| Tokens.HexStringAt | main.cpp:210-212 | byte k becomes characters 2k and 2k+1, in order |
| Tokens.DecodeHexString | main.cpp:204-214 | decoding the rendering gives the bytes back |
| Tokens.LowerHexDecodes | main.cpp:204-214 | a string decodes iff it has even length and holds only lowercase hex digits |
| Tokens.HexStringDecoded | main.cpp:204-214 | every decodable string is the rendering of its decoding; with the two lemmas above, rendering is a bijection onto even-length lowercase hex |
| Tokens.GenerateToken | main.cpp:204-214 | the loop yields the rendering of the 32 bytes: 64 lowercase hex digits |
| Auth.Substr | main.cpp:267 | `substr(pos, count)` gives at most `count` characters starting at `pos` |
| Auth.ParseBearer | main.cpp:266-273 | a header is accepted iff it has at least 7 characters and starts with `Bearer `; the token is the rest of it |
| Auth.BearerRoundTrip | main.cpp:266-273 | the header `Bearer ` + t yields the token t |
| Storage.Database.constructor | main.cpp:41-48 | an opened database holds the given tables, with the primary key in force and no NUL stored |
| Storage.Database.CreateUser | main.cpp:81-96 | the insert succeeds iff the bound username is new; then exactly that user is added with the bound password, otherwise nothing changes |
| Storage.Database.VerifyUser | main.cpp:98-117 | true iff the bound username is stored and its stored password equals the given one in full |
| Storage.Database.UserExists | main.cpp:119-132 | true iff the bound username is in the table |
| Storage.Database.CreateMessage | main.cpp:134-153 | the insert succeeds iff the bound id is not yet stored; then exactly one row is appended; the primary key and the NUL-free tables keep holding |
| Storage.Database.GetMessagesForUser | main.cpp:155-184 | the pushed messages are the listing for the bound name: all of them addressed to it, every such row present, as many as there are |
| Storage.Database.DeleteMessage | main.cpp:186-201 | the result is true iff a row with the bound id addressed to the bound user existed; the table becomes the delete's result; users untouched |
| Routes.SessionUser | main.cpp:316-332 | a user is found iff the bearer header is well formed and its token is in the session map, and it is the user that token maps to |
| Routes.Login | main.cpp:225-262 | 400 for an unparsable body, 404 iff the bound name is unknown, 200 iff the stored password read back equals the given one in full, 401 otherwise; only 200 changes state, binding just that token to the name as given |
| Routes.Logout | main.cpp:264-286 | 200 iff the header carries a bound token; then exactly that binding is gone and every other session is unchanged; 401 changes nothing |
| Routes.Signup | main.cpp:288-313 | 400 for an unparsable body, 409 iff the bound username exists (nothing changes), else 200 with exactly that user added, name and password as bound |
| Routes.GetMessages | main.cpp:315-344 | 401 iff no session; 200 iff a session's bound user is registered, and then it gives that user's listing; no status only if the session user is unknown, which cannot happen while sessions name known users |
| Routes.SendMessage | main.cpp:346-397 | 401 without a session, 400 for an unparsable body, 404 iff the bound recipient is unknown, 500 iff the bound id is taken; on 200 exactly one row is appended, its fields as bound, whose sender is the session's user |
| Routes.DeleteMessage | main.cpp:399-441 | 401 without a session, 400 for an unparsable body, 200 iff a row with the bound id is addressed to the session's bound user; then exactly that row goes and every other row, another user's included, stays; 404 changes nothing |
| Traces.Step | main.cpp:225-441 | every handler keeps the primary key, sessions naming known users and messages naming known recipients, and never removes or alters an account |
| Traces.Run | main.cpp:216-445 | any sequence of requests keeps the service valid |
| Traces.RunKeepsAccounts | main.cpp:56 | along any run a registered user stays registered with the same password, so no username is registered twice |
| Traces.StepNulFree | main.cpp:81-153 | no handler stores a NUL, because every stored string is bound |
| Traces.RunNulFree | main.cpp:216-445 | along any run the tables stay free of NUL characters |
| Traces.StepRemovesOnlyOwned | main.cpp:429-440 | a request removes a stored row only if it is a delete naming that row's id from a session of its recipient |
| Traces.RunRemovesOnlyOwned | main.cpp:186-201 | along any run, a row that disappears was deleted by a request from its recipient's session naming its id |
| Traces.LogoutTwice | main.cpp:274-285 | after a successful logout the token no longer authenticates and a second logout gives 401 |
| Traces.LoginThenLookup | main.cpp:248-251 | right after login, the token it bound authenticates as the name the login gave |
| Traces.SignupTwice | main.cpp:303-312 | a second signup under the same name gives 409 and keeps the first password |
| Traces.NulNameTaken | main.cpp:303-308 | signing up as `"bob\0x"` while `bob` is registered gives 409 |
| Traces.NulPasswordRefused | main.cpp:98-117 | a password holding a NUL is stored cut, and a login that repeats it in full gives 401 |
| Traces.NulRecipientDelivered | main.cpp:381-396 | a message sent to `"fish\0x"` is stored addressed to `fish` |
| Traces.Walkthrough | main.cpp:288-441 | any two distinct users, with distinct tokens and no NUL in what they send, sign up and log in; one writes to the other, who lists exactly that message (its id as bound), deletes it by id and then lists nothing |
| Traces.FishAndJeef | main.cpp:288-441 | the walkthrough with fish reading and jeef writing "hi"/"yo": fish's inbox holds exactly that message |
| Server.Service.constructor | main.cpp:216-219 | the service starts with the opened database and no sessions |
| Server.Service.Authenticate | main.cpp:316-332 | the bearer header resolves to the user bound to its token, or to none |
| Server.Service.Login | main.cpp:225-262 | the handler ends in the state and reply of `Routes.Login` with the rendered random token |
| Server.Service.Logout | main.cpp:264-286 | the handler ends in the state and reply of `Routes.Logout` |
| Server.Service.CreateUser | main.cpp:288-313 | the handler ends in the state and reply of `Routes.Signup` |
| Server.Service.GetMessages | main.cpp:315-344 | the handler changes nothing and replies as `Routes.GetMessages`, always 200 or 401 |
| Server.Service.CreateMessage | main.cpp:346-397 | the handler ends in the state and reply of `Routes.SendMessage` with the rendered random id |
| Server.Service.DeleteMessage | main.cpp:399-441 | the handler ends in the state and reply of `Routes.DeleteMessage` |

## Left out

- sqlite itself: opening the file, `initTables`, preparing, stepping and
  finalising statements. Of binding, only the cut at the first NUL is
  modelled. The tables are abstract values. A backend failure
  (a statement that fails to prepare, so the method returns false or an empty
  result) is not modelled. `createUser` and `createMessage` fail only on their
  unique and primary-key constraints.
- Storage.Database.constructor: a database file holding a NUL inside a stored
  value is not modelled, because only another program could have written one.
  The service stores bound strings only. That is why `GetMessagesForUser` and
  `VerifyUser` can take a value read back as a C string to be the stored value.
- The `id integer primary key autoincrement` column of `users`. No operation
  reads it.
- JSON decoding and encoding. A body that fails to parse is the `None` input
  and gives 400. A field that is missing or not a string raises an exception
  the handlers do not catch, and that path is not modelled. The text of error
  bodies is not modelled either; replies carry only their status and the
  session or message list a client reads.
- The HTTP server: setup, static mounting of `./public`, `listen`, and what the
  library sends for a handler that sets no status. Console logging is left out
  too.
- The random source of `generateToken` (`std::random_device`, `mt19937`). Its
  32 draws are a parameter. Token and id uniqueness are therefore not
  guaranteed. The model states what happens on a collision: login overwrites
  the binding, and send gives 500.
- The clock behind `current_timestamp`. It is the parameter `now`, and nothing
  assumes it is monotonic.
- The tie order among messages with equal `created_at`. Only non-increasing
  order is asserted.
- Concurrency: httplib may run handlers in parallel over an unlocked session
  map. Every operation is modelled as atomic and sequential.
- The unused `User` struct and its `msgs` vector.
- `public/*.js`, the browser client. The routes it calls that `main.cpp` does
  not implement (`/api/delusr`, `/api/lsusrs`, `/api/a_delusr`) have no model.
