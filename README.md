# sessionstore, modelled in Dafny

A model of the in-memory session store of the Go package `sessionstore`. A
`SessionManager` keeps an ordered list of `Session` records. Each record has an
id, a lifetime, a string-to-string variable map and one flash message. The
manager creates sessions under fresh random hexadecimal ids. It looks sessions
up by id and deletes a session it finds expired at lookup time (passive
expiry). It also removes one session or all of them.

Files:

- `wrappers.dfy`: `Option` and `Result`.
- `hex.dfy` (module `Hex`): the lower-case hexadecimal encoder that turns the random bytes into an id. This is Base16 from section 8 of RFC 4648, written with lower-case digits as Go's `encoding/hex` does. It comes with a decoder and both round-trip lemmas, so the encoding is shown to be injective.
- `sessionstore.dfy` (module `SessionStore`):
  - the `Session` class: `GetVar`, `SetVar`, `SetMessage`, `GetMessage`;
  - the `SessionManager` class, whose methods loop over and reassign its `sessions: seq<Session>` field;
  - the pure specification of the list operations (`FindIndex`, `RemoveSessionIndex`, `Lookup`, `Delete`) and of id generation (`GenerateSessionId`);
  - lemmas about these functions.

The manager's invariant `Valid()` says that ids are pairwise distinct.
`CreateSession`, `GetSession` and `RemoveSession` each keep it.

Modelling choices:

- Time is an integer. `time.Now()` becomes a parameter `now`, and `Lifetime.After(now)` becomes `lifetime > now`.
- The random source is a parameter `draws: seq<seq<Byte>>`. It holds the successive results of reading random bytes. `crypto/rand.Read` fills the whole buffer exactly when it reports no error. So a draw of the wrong length stands for a failed read.
- The id of a session and its lifetime are `const` fields, because the package never writes them after construction. The variable map and the message are mutable fields.

## Model

| member | source | states |
|---|---|---|
| `Hex.EncodeToString` | sessionstore.go:209 | the id text has exactly two characters per random byte, and every character is in `0-9a-f` |
| `Hex.DecodeEncode` | sessionstore.go:209 | decoding the hex text of any byte string gives back that byte string, so the encoding loses nothing |
| `Hex.EncodeDecode` | sessionstore.go:209 | every string that decodes is the encoding of the bytes it decodes to (the other direction of the round trip) |
| `Hex.EncodeInjective` | sessionstore.go:209 | two byte strings with the same hex text are equal, so distinct draws give distinct ids |
| `SessionStore.GenerateSessionId` | sessionstore.go:204-218 | a successful result is `2 * length` lower-case hex digits and is not the id of any existing session; every failure is the random-read error |
| `SessionStore.GenerateSessionIdPicksFirstUsable` | sessionstore.go:205-216 | the generator returns `id` if and only if some draw is a full read that encodes to an unused `id` and every draw before it was a full read whose encoding collided (the retry) |
| `SessionStore.FindIndex` | sessionstore.go:125-126 | the scan finds the first position holding the id, and finds none exactly when no session has that id |
| `SessionStore.RemoveSessionIndex` | sessionstore.go:199-201 | deleting at a position leaves one fewer entry: those before it are unchanged, those after it move down by one, and the multiset loses exactly the deleted session |
| `SessionStore.RemoveSessionIndexDropsId` | sessionstore.go:199-201 | when ids are distinct, deleting an entry removes its id, keeps every other id and keeps the ids distinct |
| `SessionStore.AppendFreshKeepsDistinct` | sessionstore.go:84 | appending a session whose id is unused keeps the ids pairwise distinct |
| `SessionStore.Lookup` | sessionstore.go:93-102 | a successful lookup returns a session of the list with the requested id and a lifetime after `now`, and leaves the list alone; a failure is `NotFound`; an id no session has fails and changes nothing |
| `SessionStore.LookupSucceedsIffLive` | sessionstore.go:93-99 | with distinct ids, a lookup succeeds exactly when a session with that id exists and its lifetime is after `now` |
| `SessionStore.LookupExpiredRemoves` | sessionstore.go:95-96 | looking up an expired session reports `NotFound`, deletes exactly its entry with the others kept in order, and leaves no session with that id |
| `SessionStore.LookupKeepsDistinct` | sessionstore.go:93-102 | a lookup, including its passive-expiry removal, keeps the ids distinct |
| `SessionStore.LookupMissStaysMissing` | sessionstore.go:95-102 | once a lookup has reported an id missing, a lookup of the same id on the list it left behind (with no session created in between), at any time, also reports `NotFound` and changes nothing |
| `SessionStore.Delete` | sessionstore.go:125-131 | removal succeeds exactly when the id is present and then leaves one entry fewer; on an absent id it reports `NotFound` and changes nothing |
| `SessionStore.DeleteRemovesExactly` | sessionstore.go:125-128 | with distinct ids, removing the id at position `k` deletes exactly that entry, keeps the ids distinct and leaves no session with that id |
| `SessionStore.DeleteThenLookupFails` | sessionstore.go:122-131 | after a removal, a lookup of the same id reports `NotFound` and changes nothing, whatever the time |
| `SessionStore.CreateThenLookup` | sessionstore.go:73-86 | a session appended under an unused id is returned by a lookup of its id while its lifetime is after `now`; once the lifetime has passed, the lookup reports `NotFound` and the list reverts to what it was before the append |
| `SessionStore.Session.constructor` | sessionstore.go:79-83 | a new session has the given id and lifetime, an empty variable map and the zero message |
| `SessionStore.Session.GetVar` | sessionstore.go:153-158 | a present key yields its value with `true`; an absent key yields `("", false)` |
| `SessionStore.Session.SetVar` | sessionstore.go:161-165 | afterwards `GetVar(key)` yields `(value, true)`, every other key reads as before, and the key set gains only `key`; the message is untouched |
| `SessionStore.Session.SetMessage` | sessionstore.go:140-150 | afterwards `GetMessage()` yields the message with the given type and content; the variables are untouched, and reading the message does not clear it |
| `SessionStore.Session.GetMessage` | sessionstore.go:147-150 | returns the stored message and leaves it in place |
| `SessionStore.SessionManager.constructor` | sessionstore.go:36-41 | a new manager has the given session name and no sessions |
| `SessionStore.SessionManager.CreateSession` | sessionstore.go:73-87 | with a usable draw, appends one fresh session with the generated id, lifetime `lt`, empty variables and no message, and keeps earlier entries in order; with a failed random read, returns the error and changes nothing; ids stay distinct |
| `SessionStore.SessionManager.GetSession` | sessionstore.go:90-103 | result and new list are exactly `Lookup(old list, id, now)`, and the ids stay distinct |
| `SessionStore.SessionManager.GetSessionFromCookie` | sessionstore.go:113-119 | without a session cookie, reports the cookie error and changes nothing; with one, behaves as `GetSession` on its value |
| `SessionStore.SessionManager.GetSessionFromUrl` | sessionstore.go:107-109 | behaves as `GetSession` on the first value of the query parameter named after the manager, or on `""` when the parameter is absent |
| `SessionStore.SessionManager.RemoveSession` | sessionstore.go:122-132 | result and new list are exactly `Delete(old list, id)`, and the ids stay distinct |
| `SessionStore.SessionManager.RemoveAllSessions` | sessionstore.go:135-137 | leaves no sessions, which keeps the invariant trivially |

## Left out

- `NewManagerFromFile` and `ToFile` (sessionstore.go:43-70): file I/O through Go's opaque `gob` encoding. No format is visible to state a round trip against.
- `SetCookie`, `RemoveCookie` and `GetCookieValue` (sessionstore.go:167-196): these only build or read `net/http` cookies. `GetSessionFromCookie` takes the cookie value as an `Option<string>` instead of a request.
- `GetSessionFromUrl` takes the parsed query as a map, not a `*url.URL`.
- Locking: the `sync.RWMutex` fields and their `Lock`/`RLock` calls. The model is sequential. So it does not capture that `GetSession` deletes from the list while holding only the read lock, or that `CreateSession` and `RemoveAllSessions` take no lock at all.
- `GenerateSessionId`: the source's retry is unbounded. The model retries only while supplied draws remain, and it reports running out of draws as the random-read error.
- `SessionManager.GetSession`: after removing an expired match, the Go loop keeps ranging over the old slice header while the backing array shifts under it. The model returns `NotFound` straight away. This gives the same result and the same list whenever ids are distinct, which every manager method keeps. For this reason the methods require `Valid()`. With duplicate ids the source can even panic: given two expired sessions with the same id, removing the first at position 0 leaves a one-element list, the loop then meets the shifted duplicate at position 1, and the delete slices past the end (sessionstore.go:93-96, 200). Duplicates can only arise through the exported `Sessions` field, a loaded file or an unlocked concurrent `CreateSession`; the model does not capture this panic.
- Session identity: `Session.id` and `Session.lifetime` are exported, mutable fields in Go. The model makes them immutable, because nothing in the package writes them after construction.
- Flash messages: the package keeps one message per session, and reading it does not clear it. There is no per-manager queue.
- The manager keeps `sessionName` but nothing in the model reads it other than `GetSessionFromUrl`, since the cookie functions are left out.
- `models.go` only redeclares the session record without its message; it holds no logic.
