# A verified model of a multi-tenant WhatsApp gateway

The gateway keeps one WhatsApp socket per session id. Each socket connects by
QR code and its incoming messages are stored. The stored messages can be paged
through over HTTP, and text can be sent through a session. Two persistence
layers sit beside it, and they do not share a database file:

- a tenant layer (`empresas`, `qr`, `mensagens`, `auth` tables keyed by `empresaId`);
- an auth-state adapter that gives the socket library its credentials and
  key store on top of the tenant layer's `auth` table.

The model has four modules:

- `Values` (values.dfy): nullable values, parsed JSON values, and JavaScript
  truthiness (`if (v)`, `v || d`), which the code uses to test for "present".
- `Database` (database.dfy): src/database.js. `Store` is a class whose fields
  are the four tables. Each table is a sequence of rows in rowid order, except
  `empresas`, which has a primary key and is a map. Every SELECT and DELETE is a
  pure function of a table: `OfTenant`, `ExceptTenant`, `OfKey`, `ExceptKey`.
  Every exported write operation is a method that reassigns the tables it
  writes; the reads (`GetQR`, `ListMessages`, `AuthGet`) are functions.
  `ORDER BY createdAt DESC` is modelled by an insertion sort.
- `AuthDb` (authdb.dfy): src/auth-db.js. `AuthState` is a class over a
  `Store`. `KeysGet` and `KeysSet` are the two loops of `keys.get` and
  `keys.set`. `KeysGet` is specified against `Store.AuthGet`. `KeysSet` is
  proved against `Writes` and `LastWrite`: the sequence of writes `keys.set`
  performs, and the value the last write to a key leaves.
- `Gateway` (gateway.dfy): index.js. `Server` is a class holding:
  - the in-memory registry;
  - the `sessions` table, as a map on its primary key;
  - the `messages` log and its AUTOINCREMENT counter;
  - the reconnects handed to `setTimeout`;
  - a socket counter.

  Events and HTTP handlers are methods of `Server`. Address normalization,
  text extraction, filtering of inbound batches and pagination are pure
  functions with lemmas.

Foreign calls become parameters:

| parameter | stands for |
|---|---|
| `authLoads` | whether `useMultiFileAuthState` and `makeWASocket` succeed |
| `dataUrl` | what `QRCode.toDataURL` resolves to; it is assumed to resolve (a rejection, which would skip the rest of that update, is not modelled) |
| `Content.serialized` | what `JSON.stringify` returns |
| `now` | `Date.now()` and `datetime('now')` |

Sockets are opaque tokens, numbered in creation order.

Two facts of the code are worth stating on their own:

- The send handler only appends `@s.whatsapp.net` when it is missing; it does
  not strip non-digit characters (`Gateway.NormalizeKeepsNonDigits`).
- Sending text stores no outbound message row.

## Model

| member | source | states |
|---|---|---|
| `Gateway.Contains` | index.js:150 | `includes` finds nothing longer than the text and always finds a pattern the text starts with |
| `Gateway.ContainsIff` | index.js:150 | `includes` holds exactly when the pattern occurs at some index |
| `Gateway.Normalize` | index.js:150 | the recipient starts with the given `to`, is at most the suffix longer, and always contains `@s.whatsapp.net` |
| `Gateway.NormalizeSpec` | index.js:150 | the normalized recipient always contains `@s.whatsapp.net`; an input that contains it is returned unchanged; any other input gets the suffix appended once |
| `Gateway.NormalizeIdempotent` | index.js:150 | normalizing twice equals normalizing once |
| `Gateway.NormalizeKeepsNonDigits` | index.js:150 | `+1 555-0100` becomes `+1 555-0100@s.whatsapp.net`: spaces and punctuation are kept |
| `Gateway.FirstTruthy` | index.js:97-100 | the result is missing iff no candidate is truthy; otherwise it is the first truthy candidate |
| `Gateway.Candidates` | index.js:98-100 | (definition, no contract) the three text fields in the order the handler tries them; characterised by `Gateway.BodyTextPriority` |
| `Gateway.Prefix` | index.js:101 | `slice(0, n)` is a prefix of the string, of length `min(n, length)` |
| `Gateway.BodyText` | index.js:97-101 | the stored text is the value of a non-empty text field, or a prefix of the serialization no longer than 800 characters |
| `Gateway.BodyTextPriority` | index.js:97-101 | the stored text is `conversation` if truthy, else `extendedTextMessage.text`, else `imageMessage.caption`; otherwise it is the first `min(800, length)` characters of the serialization |
| `Gateway.Kept` | index.js:95-102 | (definition, no contract) a message is stored when it has content and a key and is not `fromMe`; a missing key makes `msg.key.remoteJid` throw into the catch; characterised by `Gateway.AcceptedOne` and `Gateway.AcceptedSkipsUnkept` |
| `Gateway.EntryOf` | index.js:97-102 | (definition, no contract) the row content of a kept message: its `remoteJid` and `BodyText`; characterised by `Gateway.AcceptedFromKept` and `Gateway.BodyText` |
| `Gateway.Accepted` | index.js:93-106 | a batch stores at most one entry per message |
| `Gateway.AcceptedFromKept` | index.js:95-102 | every stored entry comes from a message of the batch that has content and a key and is not `fromMe` |
| `Gateway.AcceptedAppend` | index.js:93-106 | the messages of a batch are handled one after another: the entries of `a + b` are those of `a` followed by those of `b` |
| `Gateway.AcceptedOne` | index.js:95-102 | a single message stores exactly one entry when kept and none otherwise |
| `Gateway.AcceptedSkipsUnkept` | index.js:95-96 | a batch of messages without content, without a key, or sent from this account stores nothing |
| `Gateway.Logged` | index.js:102 | the rows appended for a list of entries are as many as the entries |
| `Gateway.LoggedRows` | index.js:32 | appended row `j` stores entry `j` under AUTOINCREMENT id `last + j + 1` |
| `Gateway.SessionRows` | index.js:162 | `WHERE session_id = sid` keeps exactly the log's rows of that session |
| `Gateway.SessionRowsIncreasing` | index.js:32 | a session's rows keep the log's increasing ids |
| `Gateway.Reverse` | index.js:162 | `ORDER BY id DESC` of an id-ordered list lists it backwards |
| `Gateway.Window` | index.js:162 | `LIMIT l OFFSET o` skips `o` rows and keeps at most `l` of the rest, in order: its exact length and element `i` is input element `o + i` |
| `Gateway.Page` | index.js:160-162 | a page never holds more than `limit` rows |
| `Gateway.PageRows` | index.js:160-162 | page row `i` is the session's row `offset + i` places from the newest; gives the page's exact length |
| `Gateway.PageSpec` | index.js:160-162 | a page holds only rows of the session taken from the log, and at most `limit` of them |
| `Gateway.PageDescending` | index.js:160-162 | a page lists its rows in strictly decreasing id order |
| `Gateway.PageSplit` | index.js:160-162 | page `(a, o)` followed by page `(b, o + a)` is page `(a + b, o)` |
| `Gateway.PageAll` | index.js:160-162 | a page from offset 0 that is large enough holds every row of the session, each as often as it is stored (as a multiset) |
| `Gateway.PageExample` | index.js:160-162 | messages m1, m2, m3 read with limit 2 come back as `[m3, m2]` and then `[m1]` |
| `Gateway.Server.constructor` | index.js:25-35 | the `sessions` rows, the `messages` rows and the AUTOINCREMENT counter are those the database file already holds; the registry and the timers start empty |
| `Gateway.Server.CreateClient` | index.js:37-56 | a registered id returns its socket and nothing changes; otherwise a new socket, distinct from every registered one, is registered for the id and no other id changes; a failed auth load rejects with no change |
| `Gateway.Server.HandleConnectionUpdate` | index.js:60-88 | a QR replaces the session row with the new data URL; `open` sets an existing row's qr to null without deleting it; a logged-out close (401) deletes the row and the registry entry and schedules nothing; any other close deletes only the registry entry and schedules exactly one reconnect after 3000 ms |
| `Gateway.Server.HandleMessagesUpsert` | index.js:91-107 | a non-`notify` batch stores nothing; a `notify` batch appends one row per kept message, for this session, in batch order, with consecutive new ids; nothing else changes |
| `Gateway.Server.StoreInbound` | index.js:94-105 | a kept message appends exactly one row with the next id; a skipped one, including one whose missing key makes the insert throw, changes nothing |
| `Gateway.Server.FireReconnect` | index.js:86 | a due reconnect leaves the pending set once and runs createClient for its session, ignoring failure |
| `Gateway.Server.StartSession` | index.js:115-124 | a falsy id is refused with no change; otherwise the call is createClient, with its result, new registry and socket count |
| `Gateway.Server.Restore` | index.js:169-182 | the old registry entry is dropped and a new socket is registered; if creation fails the id is left unregistered |
| `Gateway.Server.DeleteSession` | index.js:185-198 | the registry entry is gone; when the auth folder is removed the sessions row is gone too and the call succeeds, and when the removal throws the row stays and the call fails (500); the session's messages stay; on an absent session nothing changes |
| `Gateway.Server.SendText` | index.js:144-155 | a falsy `to` or `message` is a bad request with no change; otherwise the session's socket gets the text for `Normalize(to)`: a registered socket with no change, or a new one registered for the id (one more socket opened); it fails only when creation fails, and then the registry and socket count are unchanged |
| `Gateway.Server.QrOf` | index.js:135-141 | GET qr returns null when the session has no row, and otherwise the row's qr |
| `Gateway.Server.MessagesPage` | index.js:158-166 | the listing holds only this session's rows, at most `limit`, in strictly decreasing id order |
| `Gateway.QrThenOpen` | index.js:63-72 | a QR event followed by `open` leaves exactly one row for the session, with qr null; GET qr then returns null |
| `Gateway.DeleteTwice` | index.js:185-198 | with the auth folder removed both times, deleting a session twice leaves the state that deleting it once leaves, in every field: registry, sessions, messages, AUTOINCREMENT counter, timers and socket count |
| `Database.OfTenant` | src/database.js:43 | selecting by tenant keeps exactly that tenant's rows, and never more rows than the table has |
| `Database.ExceptTenant` | src/database.js:38 | deleting by tenant keeps exactly the other tenants' rows |
| `Database.OfTenantExceptTenant` | src/database.js:57-61 | after deleting a tenant it has no rows, and every other tenant has the rows it had, in order |
| `Database.ExceptTenantIdempotent` | src/database.js:57-61 | deleting a tenant's rows a second time deletes nothing more |
| `Database.NoTenantRowsUnchanged` | src/database.js:57-61 | deleting a tenant that has no rows leaves the table unchanged |
| `Database.OfKey` | src/database.js:66 | selecting by (tenant, key) keeps exactly the rows of that pair |
| `Database.ExceptKey` | src/database.js:70 | deleting by (tenant, key) keeps exactly the rows of other pairs |
| `Database.OfKeyExceptKey` | src/database.js:73-75 | after deleting a pair it has no row, and every other pair keeps its rows |
| `Database.OfTenantExceptKey` | src/database.js:70 | deleting a pair leaves every other tenant's rows unchanged |
| `Database.OfKeyExceptTenant` | src/database.js:58 | deleting a tenant's auth rows removes every key of it and no key of another tenant |
| `Database.Lookup` | src/database.js:65-68 | (definition, no contract) `row ? JSON.parse(row.value) : null` over the pair's first row; characterised by `Database.Store.AuthGet` |
| `Database.InsertNewest` | src/database.js:54 | inserting into a newest-first list keeps it newest-first and adds no row newer than the inserted one |
| `Database.InsertNewestPermutes` | src/database.js:54 | insertion adds exactly the one row |
| `Database.SortNewest` | src/database.js:54 | `ORDER BY createdAt DESC` yields non-increasing createdAt |
| `Database.SortNewestPermutes` | src/database.js:54 | sorting neither loses nor adds a row |
| `Database.ReplaceTenantRow` | src/database.js:37-40 | delete-then-insert leaves exactly the new row for its tenant, leaves other tenants unchanged, and keeps at most one row per tenant |
| `Database.OfKeyReplaced` | src/database.js:69-72 | delete-then-insert leaves exactly the new row for its pair and every other pair unchanged |
| `Database.ReplaceKeyRow` | src/database.js:69-72 | the same for the auth table, plus other tenants unchanged and at most one row per pair |
| `Database.Store.constructor` | src/database.js:4-31 | opening the file keeps the four tables it holds (empty on a fresh file) |
| `Database.Store.CreateEmpresa` | src/database.js:33-35 | INSERT OR IGNORE: afterwards the tenant exists; an existing tenant keeps its createdAt, so a second call changes nothing |
| `Database.Store.GetQR` | src/database.js:42-45 | the result is the tenant's stored qr when it is truthy; null iff the tenant has no row with a truthy qr (no row, NULL or empty string) |
| `Database.Store.SaveQR` | src/database.js:37-40 | afterwards the tenant has exactly one qr row holding `q`; other tenants' rows and the other tables are unchanged; getQR returns `q` if truthy, else null |
| `Database.Store.SaveMessage` | src/database.js:47-51 | exactly one row is appended and existing rows are untouched; a falsy `msg.id` is stored as NULL; other tenants' listings are unchanged |
| `Database.Store.ListMessages` | src/database.js:53-55 | exactly the tenant's rows, each as often as stored, ordered by non-increasing createdAt |
| `Database.Store.ResetEmpresa` | src/database.js:57-61 | the tenant's auth, mensagens and qr rows are gone; empresas and other tenants' auth values are untouched; getQR is null, the listing is empty and every key reads null |
| `Database.Store.AuthGet` | src/database.js:65-68 | an absent pair reads null; a present one reads its stored value |
| `Database.Store.AuthSet` | src/database.js:69-72 | exactly one row for the pair, holding `v`; a following get returns `v`; every other pair and tenant is unchanged |
| `Database.Store.AuthDelete` | src/database.js:73-75 | the pair reads null and every other pair is unchanged |
| `AuthDb.InitialCreds` | src/auth-db.js:6 | creds is the stored value when it is truthy, and `{}` otherwise; it is always truthy |
| `AuthDb.KeyName` | src/auth-db.js:11-19 | (definition, no contract) the composite key `${type}-${id}`; shown not injective by `AuthDb.SetCollisionKeepsLast` |
| `AuthDb.EntryWrites` | src/auth-db.js:18-20 | the inner loop writes entry `i` of a type under `type-id`, one write per entry, in order |
| `AuthDb.Writes` | src/auth-db.js:16-21 | (definition, no contract) the writes of the two loops in order, group after group; characterised by `AuthDb.EntryWrites` and `AuthDb.WritesCoverData` |
| `AuthDb.SetAll` | src/auth-db.js:16-21 | (definition, no contract) the auth table after a run of `authStore.set` calls; characterised by `AuthDb.SetAllConcat` and `AuthDb.SetAllEffect` |
| `AuthDb.WritesCoverData` | src/auth-db.js:16-21 | every `(type, id)` of `data` is written with its value under `type-id` |
| `AuthDb.LastWrite` | src/auth-db.js:16-21 | a key is unwritten iff no write names it; otherwise its value is that of the last write naming it |
| `AuthDb.LastWriteAppend` | src/auth-db.js:19 | one more write sets its own key and leaves every other key's last write unchanged |
| `AuthDb.SetAllConcat` | src/auth-db.js:17-21 | two runs of writes one after another are the run of their concatenation |
| `AuthDb.SetAllEffect` | src/auth-db.js:16-21 | after the writes, each key of the tenant holds its last written value or what it held before; other tenants' rows are unchanged; at most one row per pair is kept |
| `AuthDb.SetKeepsDistinctEntries` | src/auth-db.js:16-21 | when the composite keys are distinct, every entry of `data` reads back its own value |
| `AuthDb.SetCollisionKeepsLast` | src/auth-db.js:19 | entries `("a-b", "c")` and `("a", "b-c")` collide on one key, and only the later value survives |
| `AuthDb.AuthState.constructor` | src/auth-db.js:3-6 | the state's creds is `InitialCreds` of the stored `creds` value |
| `AuthDb.AuthState.KeysGet` | src/auth-db.js:8-15 | the keys of the result are among `ids`; each maps to the truthy value stored under `type-id` for this tenant; every id with a truthy stored value is included (so `[]` gives `{}`) |
| `AuthDb.AuthState.KeysSet` | src/auth-db.js:16-22 | the tenant's keys hold their last written values and keep their old values otherwise; other tenants are unchanged; the other tables are unchanged |
| `AuthDb.AuthState.SetGroup` | src/auth-db.js:18-20 | the inner loop performs exactly that type's writes, in order |
| `AuthDb.AuthState.SaveCredsWith` | src/auth-db.js:25-27 | the body of saveCreds with `this` bound to a receiver: `this.state.creds` is read before `authStore.set`, so with no receiver it throws and the auth table is unchanged; with a receiver, the table is the old one with the `creds` row replaced by the receiver's creds; every other pair and table is unchanged |
| `AuthDb.AuthState.SaveCredsAsWritten` | src/auth-db.js:25-27 | saveCreds as written runs that body with `this` undefined (the lexical `this` of two nested arrow functions in an ES module): it throws a TypeError and no table changes |
| `AuthDb.AuthState.SaveCreds` | src/auth-db.js:25-27 | saveCreds as intended runs that body with `this` the auth state: the auth table gets exactly one `creds` row holding the current creds, so a fresh authDb loads `InitialCreds(creds)`; every other pair and the other tables are unchanged |

## Left out

- HTTP layer: routing, status codes, response bodies, `cors`, `dotenv` and `app.listen` are not modelled. Handlers appear only as the state changes they make and the outcome they choose.
- Read-only endpoints: `GET /sessions` (index.js:127-132) and `/health` change no state and are not modelled.
- Filesystem: the auth folder itself and the sessions directory are not modelled. Whether removing the folder on delete succeeds is the `folderRemoved` parameter of Gateway.Server.DeleteSession; on logout a failure is swallowed, so it changes nothing there. scripts/setup_dirs.mjs is not part of this model.
- Socket library:
  - Whether loading auth and creating a socket succeed is the `authLoads` parameter.
  - `fetchLatestBaileysVersion` only chooses a version; its failure is caught, so it is not modelled.
  - The `creds.update` wiring only forwards to a library function and is not modelled.
  - `sendQRCallback` is never passed in this file and is not modelled.
- Gateway.Server.CreateClient: the registry is a plain object, so `sessions[id]` is truthy for ids that name `Object.prototype` members (`constructor`, `toString`, `__proto__`, ...). For those ids the code returns the inherited value and creates no socket, then start reports success, send throws `sock.sendMessage is not a function`, and the `delete` in restore does nothing. The model treats every id alike and registers a new socket. Gateway.Server.StartSession, Gateway.Server.Restore, Gateway.Server.SendText and Gateway.Server.FireReconnect inherit this.
- Gateway.Server.SendText: `Dispatched` means the text was handed to the socket. A failure inside `sendMessage` is not modelled.
- Gateway.Server.Restore: the old socket's `ws.close()` is not modelled. The close event that socket may emit later is an ordinary input to `HandleConnectionUpdate`.
- Timers: a `setTimeout` is a pending `Reconnect` in a multiset. Time itself and the order in which timers fire are not modelled.
- Concurrency: the model is sequential.
  - createClient's registry check and insert are separated by awaits, so concurrent calls could create two sockets. The model does not claim exactly-once creation under concurrency.
  - The `db.run` calls in index.js are not awaited. They are taken to run in the order they are issued.
- Gateway.Server.HandleMessagesUpsert: one clock reading covers a whole batch, while the code reads `Date.now()` once per message.
- JSON:
  - `JSON.stringify` followed by `JSON.parse` is taken as the identity.
  - JSON numbers are reals.
  - `slice(0, 800)` counts characters, where JavaScript counts UTF-16 code units.
- Query strings: Gateway.Server.MessagesPage takes `limit` and `offset` as naturals already parsed. Three cases are not modelled:
  - The handler's defaults (`limit` 50, `offset` 0, from `req.query.limit || "50"` and `req.query.offset || "0"`) are left to the caller.
  - A value `parseInt` reads as NaN is bound as NULL, and the query then fails, so the handler answers 500.
  - In SQLite a negative `limit` means no limit, and a negative `offset` counts as zero.
- Request body fields: `id`, `to` and `message` are strings or missing. Two cases are not modelled:
  - A non-string `to` would make `includes` throw.
  - A non-string `id` for POST start (a JSON number, say) would make `path.join` throw inside createClient, and the handler answers 500. Gateway.Server.StartSession cannot represent it.
- Timestamps: `datetime('now')` is a natural number of seconds. Rows with equal createdAt may come back in any order, and `Database.SortNewest` fixes one such order. `Database.Store.ListMessages` states only what holds for every order.
- Database.Store.Valid: at most one qr row per tenant and one auth row per pair. This holds only if no other writer touches the database file, and if calls of `saveQR`, or of `authStore.set` for the same pair, do not overlap: two overlapping calls can run DELETE, DELETE, INSERT, INSERT across their awaits, leave two rows, and `get` then reads the older one. The model runs each call to completion. Database.Store.constructor requires the shape of the tables the file already holds.
- AuthDb.AuthState.KeysSet:
  - `data` is given as groups in the order `for...in` enumerates them. JavaScript's rule that integer-like keys come first is not modelled.
  - A `null` group, which `for...in` skips, is not modelled.
- Separate layers: index.js does not import src/database.js, and the two use different database files. The modules are kept separate.

## Findings

| source | as written | input that shows it | evidently intended | confidence | as-written member | corrected member |
|---|---|---|---|---|---|---|
| src/auth-db.js:25-27 | `saveCreds` is an arrow function in an ES module and reads `this.state.creds`. There `this` is `undefined`, so the read throws a TypeError and nothing is stored. | any call of `(await authDb(empresaId)).saveCreds()`. The defect is latent: index.js does not import src/auth-db.js, and it wires `useMultiFileAuthState`'s own `saveCreds` (index.js:41, 58) | store the current credentials under `creds` for the tenant | high; not executed | `AuthDb.AuthState.SaveCredsAsWritten` | `AuthDb.AuthState.SaveCreds` |
